/** _GuardedTarReader: tar framing checked member by member while the bytes stream past. */
module TarGuard {
  import opened Wrappers
  import opened Bytes
  import opened Limits

  const BLOCK: nat := 512
  const EXTENSION_MAX_BYTES: nat := 1024 * 1024

  /** What tarfile reads from a header block: whether it is an extension header, and its size. */
  datatype Header = Header(extension: bool, size: nat)

  datatype Failure =
    | TruncatedHeader | TooManyMembers | BadHeader | ExtensionTooLarge | RawBytesExceeded | EndedInMember

  type Parser = seq<Byte> -> Option<Header>

  predicate IsZero(block: seq<Byte>) {
    forall i | 0 <= i < |block| :: block[i] == 0
  }

  /** The payload of a member, in whole blocks. */
  function Payload(size: nat): nat {
    (size + BLOCK - 1) / BLOCK * BLOCK
  }

  /** How far a stream may be released, and how it ends. */
  datatype Extent = Extent(end: nat, failure: Option<Failure>)

  /** The reference: walk the headers of the whole stream.  A member that passes the member count,
      the extension size or the raw size limit ends the released part before its header. */
  function Walk(parse: Parser, src: seq<Byte>, at: nat, headers: nat, raw: nat): (e: Extent)
    requires at <= |src|
    ensures at <= e.end <= |src|
    decreases |src| - at
  {
    if at == |src| then Extent(at, None)
    else if |src| - at < BLOCK then Extent(at, Some(TruncatedHeader))
    else
      var block := src[at..at + BLOCK];
      if IsZero(block) then Extent(at + BLOCK, None)
      else if headers + 1 > ARCHIVE_MAX_MEMBERS then Extent(at, Some(TooManyMembers))
      else if parse(block).None? then Extent(at, Some(BadHeader))
      else
        var member := parse(block).value;
        var next := at + BLOCK + Payload(member.size);
        if member.extension && member.size > EXTENSION_MAX_BYTES then Extent(at, Some(ExtensionTooLarge))
        else if raw + BLOCK + Payload(member.size) > ARCHIVE_MAX_BYTES then Extent(at, Some(RawBytesExceeded))
        else if next > |src| then Extent(|src|, Some(EndedInMember))
        else Walk(parse, src, next, headers + 1, raw + BLOCK + Payload(member.size))
  }

  /** A member starts at `at`, and with it no limit is passed. */
  predicate Allowed(parse: Parser, src: seq<Byte>, at: nat, headers: nat, raw: nat) {
    && at + BLOCK <= |src| && !IsZero(src[at..at + BLOCK]) && parse(src[at..at + BLOCK]).Some?
    && headers < ARCHIVE_MAX_MEMBERS
    && var member := parse(src[at..at + BLOCK]).value;
       (member.extension ==> member.size <= EXTENSION_MAX_BYTES) && raw + BLOCK + Payload(member.size) <= ARCHIVE_MAX_BYTES
  }

  /** Header and payload of the member at `at`. */
  function Span(parse: Parser, src: seq<Byte>, at: nat): nat
    requires at + BLOCK <= |src| && parse(src[at..at + BLOCK]).Some?
  {
    BLOCK + Payload(parse(src[at..at + BLOCK]).value.size)
  }

  /** The archive is well framed from `at` up to `end`: whole members within the limits. */
  ghost predicate Framed(parse: Parser, src: seq<Byte>, at: nat, end: nat, headers: nat, raw: nat)
    decreases end - at
  {
    || at == end
    || (&& Allowed(parse, src, at, headers, raw)
        && var next := at + Span(parse, src, at);
           next <= end && Framed(parse, src, next, end, headers + 1, raw + Span(parse, src, at)))
  }

  /** The archive ends inside a member that is itself, like all before it, within the limits. */
  ghost predicate CutMember(parse: Parser, src: seq<Byte>, at: nat, headers: nat, raw: nat)
    decreases |src| - at
  {
    && Allowed(parse, src, at, headers, raw)
    && var next := at + Span(parse, src, at);
       next > |src| || CutMember(parse, src, next, headers + 1, raw + Span(parse, src, at))
  }

  /** A whole, nonzero header block stands at `at`, and the first check it fails is this one. */
  predicate Breaks(parse: Parser, src: seq<Byte>, at: nat, headers: nat, raw: nat, f: Failure) {
    && at + BLOCK <= |src| && !IsZero(src[at..at + BLOCK])
    && var member := parse(src[at..at + BLOCK]);
       match f
       case TooManyMembers => headers >= ARCHIVE_MAX_MEMBERS
       case BadHeader => headers < ARCHIVE_MAX_MEMBERS && member.None?
       case ExtensionTooLarge =>
         headers < ARCHIVE_MAX_MEMBERS && member.Some? && member.value.extension && member.value.size > EXTENSION_MAX_BYTES
       case RawBytesExceeded =>
         && headers < ARCHIVE_MAX_MEMBERS && member.Some? && (member.value.extension ==> member.value.size <= EXTENSION_MAX_BYTES)
         && raw + BLOCK + Payload(member.value.size) > ARCHIVE_MAX_BYTES
       case _ => false
  }

  /** Whole members within the limits lead up to `end`, and the header there breaks one. */
  ghost predicate FaultAt(parse: Parser, src: seq<Byte>, at: nat, end: nat, headers: nat, raw: nat, f: Failure)
    decreases end - at
  {
    if at == end then Breaks(parse, src, at, headers, raw, f)
    else
      && Allowed(parse, src, at, headers, raw)
      && var next := at + Span(parse, src, at);
         next <= end && FaultAt(parse, src, next, end, headers + 1, raw + Span(parse, src, at), f)
  }

  /** What a walk comes to.  A stream released without failure is whole members within every limit,
      then its end or one zero block; a stream that ends inside a member is released to its end
      exactly when that member and all before it are within the limits; a header cut short and a
      header that breaks a limit end the released part before them. */
  lemma {:induction false} WalkIsFramed(parse: Parser, src: seq<Byte>, at: nat, headers: nat, raw: nat)
    requires at <= |src|
    ensures var e := Walk(parse, src, at, headers, raw);
            match e.failure
            case None =>
              || (e.end == |src| && Framed(parse, src, at, e.end, headers, raw))
              || (at + BLOCK <= e.end && IsZero(src[e.end - BLOCK..e.end]) && Framed(parse, src, at, e.end - BLOCK, headers, raw))
            case Some(EndedInMember) => e.end == |src|
            case Some(TruncatedHeader) => Framed(parse, src, at, e.end, headers, raw) && 0 < |src| - e.end < BLOCK
            case Some(f) => FaultAt(parse, src, at, e.end, headers, raw, f)
    ensures Walk(parse, src, at, headers, raw).failure == Some(EndedInMember) <==> CutMember(parse, src, at, headers, raw)
    decreases |src| - at
  {
    hide IsZero;
    if Allowed(parse, src, at, headers, raw) && at + Span(parse, src, at) <= |src| {
      WalkIsFramed(parse, src, at + Span(parse, src, at), headers + 1, raw + Span(parse, src, at));
    }
  }

  /** The other way round: a sound stream is released whole, a zero block ends it, and each fault is
      reported where it stands. */
  lemma {:induction false} FramedIsWalked(parse: Parser, src: seq<Byte>, at: nat, end: nat, headers: nat, raw: nat)
    requires at <= end <= |src|
    ensures Framed(parse, src, at, end, headers, raw) ==>
              var e := Walk(parse, src, at, headers, raw);
              && (end == |src| ==> e == Extent(end, None))
              && (end + BLOCK <= |src| && IsZero(src[end..end + BLOCK]) ==> e == Extent(end + BLOCK, None))
              && (0 < |src| - end < BLOCK ==> e == Extent(end, Some(TruncatedHeader)))
    ensures forall f | FaultAt(parse, src, at, end, headers, raw, f) ::
              Walk(parse, src, at, headers, raw) == Extent(end, Some(f))
    decreases end - at
  {
    hide IsZero;
    if at < end && Allowed(parse, src, at, headers, raw) && at + Span(parse, src, at) <= end {
      FramedIsWalked(parse, src, at + Span(parse, src, at), end, headers + 1, raw + Span(parse, src, at));
    }
  }

  class Guard {
    const parse: Parser
    const source: seq<Byte>
    /** How much of the source has been read; source.read(n) returns n bytes unless it ends. */
    var position: nat
    var pending: seq<Byte>
    var payload: nat
    var raw: nat
    var headers: nat
    var done: bool
    /** What of the source may be released, by the reference walk. */
    ghost const extent: Extent

    constructor (parse: Parser, source: seq<Byte>)
      ensures Valid() && Released() == 0 && this.source == source && this.parse == parse
      ensures extent == Walk(parse, source, 0, 0, 0)
    {
      this.parse, this.source, extent := parse, source, Walk(parse, source, 0, 0, 0);
      position, pending, payload, raw, headers, done := 0, [], 0, 0, 0, false;
    }

    /** How many bytes have been handed out: all that were read but the pending header. */
    ghost function Released(): int
      reads this
    {
      position - |pending|
    }

    ghost predicate Valid()
      reads this
    {
      && |pending| <= position <= |source|
      && pending == source[position - |pending|..position]
      && (if done then payload == 0 && extent == Extent(position, None)
          else if position + payload > |source| then extent == Extent(|source|, Some(EndedInMember))
          else extent == Walk(parse, source, position + payload, headers, raw))
    }

    method ReadSource(n: nat) returns (data: seq<Byte>)
      requires position <= |source|
      modifies this`position
      ensures position <= |source| && data == Slice(source, old(position), old(position) + n)
      ensures position == old(position) + |data|
    {
      data := Slice(source, position, position + n);
      position := position + |data|;
    }

    /** The bytes come out in order, never past the extent; an empty answer to a real request is
        the end of a sound stream, and a failure comes exactly when the extent is exhausted. */
    method Read(size: int) returns (r: Result<seq<Byte>, Failure>)
      requires Valid()
      modifies this
      ensures r.Ok? ==>
                && Valid()
                && old(Released()) + |r.value| <= extent.end
                && r.value == source[old(Released())..old(Released()) + |r.value|]
                && Released() == old(Released()) + |r.value|
                && (size > 0 ==> |r.value| <= size)
                && (r.value == [] && size != 0 ==> extent == Extent(old(Released()), None))
      ensures r.Err? ==> extent == Extent(old(Released()), Some(r.error))
    {
      if size == 0 {
        return Ok([]);
      }
      var requested := if size < 0 then DECODE_CHUNK_BYTES else size;
      if pending == [] && !done && payload == 0 {
        var _ :- NextHeader();
      }
      r := Deliver(requested);
    }

    /** Hand out what is ready: the pending header, or some of the payload. */
    method Deliver(requested: nat) returns (r: Result<seq<Byte>, Failure>)
      requires Valid() && requested > 0 && (pending != [] || done || payload > 0)
      requires pending == [] && done ==> extent == Extent(position, None)
      modifies this
      ensures r.Ok? ==>
                && Valid()
                && |r.value| <= requested && old(Released()) + |r.value| <= extent.end
                && r.value == source[old(Released())..old(Released()) + |r.value|]
                && Released() == old(Released()) + |r.value|
                && (r.value == [] ==> extent == Extent(old(Released()), None))
      ensures r.Err? ==> extent == Extent(old(Released()), Some(r.error))
    {
      if pending != [] {
        var output := Slice(pending, 0, requested);
        assert output == source[Released()..Released() + |output|];
        pending := pending[|output|..];
        r := Ok(output);
      } else if done {
        r := Ok([]);
      } else {
        r := ReadPayload(requested);
      }
    }

    method ReadPayload(requested: nat) returns (r: Result<seq<Byte>, Failure>)
      requires Valid() && pending == [] && payload > 0 && requested > 0
      modifies this`position, this`payload
      ensures r.Ok? ==>
                && Valid()
                && 0 < |r.value| <= requested && position <= extent.end && position == old(position) + |r.value|
                && r.value == source[old(position)..position]
      ensures r.Err? ==> extent == Extent(old(position), Some(r.error))
    {
      var length := Min(requested, Min(payload, DECODE_CHUNK_BYTES));
      var output := ReadSource(length);
      if output == [] {
        return Err(EndedInMember);
      }
      payload := payload - |output|;
      r := Ok(output);
    }

    /** Read and check one header. */
    method NextHeader() returns (r: Result<(), Failure>)
      requires Valid() && pending == [] && !done && payload == 0
      modifies this
      ensures r.Ok? ==> Valid() && Released() == old(Released()) && (pending != [] || done) && |pending| in {0, BLOCK}
      ensures r.Ok? && pending == [] ==> extent == Extent(Released(), None)
      ensures r.Err? ==> extent == Extent(old(Released()), Some(r.error))
    {
      var header := ReadSource(BLOCK);
      if header == [] {
        done := true;
        return Ok(());
      }
      if |header| != BLOCK {
        return Err(TruncatedHeader);
      }
      raw := raw + BLOCK;
      if IsZero(header) {
        done := true;
        pending := header;
        return Ok(());
      }
      headers := headers + 1;
      if headers > ARCHIVE_MAX_MEMBERS {
        return Err(TooManyMembers);
      }
      if parse(header).None? {
        return Err(BadHeader);
      }
      var member := parse(header).value;
      if member.extension && member.size > EXTENSION_MAX_BYTES {
        return Err(ExtensionTooLarge);
      }
      payload := Payload(member.size);
      raw := raw + payload;
      if raw > ARCHIVE_MAX_BYTES {
        return Err(RawBytesExceeded);
      }
      pending := header;
      r := Ok(());
    }

    /** Whatever read sizes drive it, the output is one and the same prefix of the source. */
    method ReadAll(sizes: nat -> int) returns (output: seq<Byte>, failure: Option<Failure>)
      requires Valid() && Released() == 0
      requires forall k :: sizes(k) != 0
      modifies this
      ensures extent == Extent(|output|, failure) && output == source[..|output|]
    {
      output, failure := [], None;
      var k := 0;
      while true
        invariant Valid() && Released() == |output| <= |source| && output == source[..|output|]
        decreases |source| - |output|
      {
        var r := Read(sizes(k));
        if r.Err? {
          return output, Some(r.error);
        }
        if r.value == [] {
          return;
        }
        assert source[..|output|] + r.value == source[..|output| + |r.value|];
        output := output + r.value;
        k := k + 1;
      }
    }
  }
}
