/** A reader for the token sequences the DROP DOMAIN renderer produces. It
    recovers the whole statement from any rendering, whichever the dialect,
    and accepts nothing that is not a rendering. */
module DropDomainDecode {
  import opened Sql
  import opened Dialects
  import opened DropDomain

  /** Reads the optional trailing CASCADE / RESTRICT clause. */
  function DecodeCascadeClause(ts: seq<Token>): Option<Option<bool>> {
    if ts == [] then Some(None)
    else if ts == [Space, KCascade] then Some(Some(true))
    else if ts == [Space, KRestrict] then Some(Some(false))
    else None
  }

  /** Reads an unwrapped statement; IF EXISTS is true iff the native keyword
      is present. */
  function DecodeBody(ts: seq<Token>): Option<DropDomainImpl> {
    if |ts| < 3 || ts[..3] != [KDrop, Space, KDomain] then None
    else
      var rest := ts[3..];
      var ifExists := |rest| >= 2 && rest[..2] == [Space, KIfExists];
      var tail := if ifExists then rest[2..] else rest;
      if |tail| < 2 || tail[0] != Space || !tail[1].Name? then None
      else
        match DecodeCascadeClause(tail[2..])
        case None => None
        case Some(c) => Some(DropDomainImpl(tail[1].domain, ifExists, c))
  }

  /** Reads a statement: a body enclosed in the error-suppressing block means
      IF EXISTS, provided the body does not also carry the native keyword. */
  function Decode(ts: seq<Token>): Option<DropDomainImpl> {
    if |ts| >= 2 && ts[0] == BeginTryCatch(DropDomainStatement)
                 && ts[|ts| - 1] == EndTryCatch(DropDomainStatement)
    then
      match DecodeBody(ts[1..|ts| - 1])
      case Some(b) => if b.dropDomainIfExists then None else Some(b.(dropDomainIfExists := true))
      case None => None
    else
      DecodeBody(ts)
  }

  /** Rendering loses nothing: every statement is recovered from its text in
      every dialect, native or emulated IF EXISTS alike. */
  lemma DecodeAccept(s: DropDomainImpl, f: Family)
    ensures Decode(Accept(s, f)) == Some(s)
  {
    var body := Accept0(s, f);
    DecodeBodyAccept0(s, f);
    if Emulated(s, f) {
      var ts := Accept(s, f);
      assert ts[1..|ts| - 1] == body;
    } else {
      assert body[0] == KDrop;
    }
  }

  /** The reader recovers an unwrapped statement, with IF EXISTS exactly
      when the native keyword was written. */
  lemma DecodeBodyAccept0(s: DropDomainImpl, f: Family)
    ensures DecodeBody(Accept0(s, f)) == Some(s.(dropDomainIfExists := NativeIfExists(s, f)))
  {
    var ts := Accept0(s, f);
    var rest := ts[3..];
    var tail := [Space, Name(s.domain)] + CascadeClause(s.cascade);
    assert rest == (if NativeIfExists(s, f) then [Space, KIfExists] else []) + tail;
    assert (|rest| >= 2 && rest[..2] == [Space, KIfExists]) == NativeIfExists(s, f);
    assert tail[2..] == CascadeClause(s.cascade);
  }

  /** Every unwrapped statement the reader accepts is the unwrapped
      rendering of what it read, in every family that would not emulate it. */
  lemma DecodeBodyOnlyRenderings(ts: seq<Token>, b: DropDomainImpl)
    requires DecodeBody(ts) == Some(b)
    ensures forall f: Family | !b.dropDomainIfExists || SupportsIfExists(f) :: Accept0(b, f) == ts
  {
    var rest := ts[3..];
    var tail := if b.dropDomainIfExists then rest[2..] else rest;
    assert tail[2..] == CascadeClause(b.cascade);
    assert tail == [Space, Name(b.domain)] + CascadeClause(b.cascade);
    assert rest == (if b.dropDomainIfExists then [Space, KIfExists] else []) + tail;
    assert ts == [KDrop, Space, KDomain] + rest;
  }

  /** Everything the reader accepts is the rendering of what it read, in
      every dialect whose IF EXISTS capability matches the text. */
  lemma DecodeOnlyRenderings(ts: seq<Token>, s: DropDomainImpl)
    requires Decode(ts) == Some(s)
    ensures ts == Accept(s, Default) || ts == Accept(s, Firebird)
    ensures forall f: Family | !s.dropDomainIfExists || (SupportsIfExists(f) <==> KIfExists in ts) ::
      Accept(s, f) == ts
  {
    if |ts| >= 2 && ts[0] == BeginTryCatch(DropDomainStatement)
                 && ts[|ts| - 1] == EndTryCatch(DropDomainStatement) {
      var body := ts[1..|ts| - 1];
      var b := DecodeBody(body).value;
      DecodeBodyOnlyRenderings(body, b);
      assert Accept0(s, Firebird) == Accept0(b, Firebird) == body;
      assert ts == ts[..1] + body + ts[|ts| - 1..];
      assert ts[..1] == [BeginTryCatch(DropDomainStatement)];
      assert ts[|ts| - 1..] == [EndTryCatch(DropDomainStatement)];
      assert KIfExists !in ts by {
        assert KIfExists !in body;
      }
    } else {
      DecodeBodyOnlyRenderings(ts, s);
    }
  }
}
