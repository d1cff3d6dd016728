/** _decoded_kernel: the ELF payload of a boot member, tried candidate by candidate under one
    decompression budget. */
module KernelDecode {
  import opened Wrappers
  import opened Bytes
  import opened MagicScan

  const DECODED_KERNEL_MAX_BYTES: nat := 2 * 1024 * 1024 * 1024
  const ELF_MAGIC: seq<Byte> := [0x7f, 0x45, 0x4c, 0x46]

  /** The magics in the order they are tried: gzip, bzip2, xz, zstd. */
  const MAGICS: seq<seq<Byte>> := [
    [0x1f, 0x8b, 0x08], [0x42, 0x5a, 0x68], [0xfd, 0x37, 0x7a, 0x58, 0x5a, 0x00], [0x28, 0xb5, 0x2f, 0xfd]]

  /** What a decompressor makes of the member from one offset on: the output it returns, and
      whether it then reaches its end or raises. */
  datatype Stream = Stream(output: seq<Byte>, complete: bool)

  /** A candidate: a format and where its magic stands. */
  datatype Place = Place(format: nat, offset: nat)

  /** The decoder of a candidate.  How much is asked of it at a time depends on the budget it starts
      with, and so may what it returns before it raises. */
  type Codec = (Place, int) -> Stream

  datatype Verdict = Image(bytes: seq<Byte>) | NoPayload | TooManyCandidates | OverBudget

  predicate IsElf(bytes: seq<Byte>) {
    Slice(bytes, 0, 4) == ELF_MAGIC
  }

  /** The reference: the candidates in order, each charged with all its output. */
  function Choose(codec: Codec, places: seq<Place>, tried: nat, budget: int): Verdict {
    if places == [] then NoPayload
    else if tried >= CANDIDATES_MAX then TooManyCandidates
    else
      var c := codec(places[0], budget);
      if |c.output| > budget then OverBudget
      else if c.complete && IsElf(c.output) then Image(c.output)
      else Choose(codec, places[1..], tried + 1, budget - |c.output|)
  }

  function Places(format: nat, offsets: seq<nat>): (r: seq<Place>)
    ensures |r| == |offsets| && forall i | 0 <= i < |r| :: r[i] == Place(format, offsets[i])
  {
    seq(|offsets|, i requires 0 <= i < |offsets| => Place(format, offsets[i]))
  }

  /** The candidates of this and all later formats, in offset order within each. */
  function Candidates(bytes: seq<Byte>, format: nat): seq<Place>
    requires format <= |MAGICS|
    decreases |MAGICS| - format
  {
    if format == |MAGICS| then []
    else Places(format, All(bytes, MAGICS[format])) + Candidates(bytes, format + 1)
  }

  /** What the candidates produce when they are decoded one after the other. */
  function Charge(codec: Codec, places: seq<Place>, budget: int): nat {
    if places == [] then 0
    else
      var n := |codec(places[0], budget).output|;
      n + Charge(codec, places[1..], budget - n)
  }

  /** What the k-th candidate produces when those before it have had their share. */
  function Turn(codec: Codec, places: seq<Place>, k: nat, budget: int): Stream
    requires k < |places|
  {
    codec(places[k], budget - Charge(codec, places[..k], budget))
  }

  lemma TurnAfter(codec: Codec, places: seq<Place>, k: nat, budget: int)
    requires 0 < k <= |places|
    ensures var n := |codec(places[0], budget).output|;
            && Charge(codec, places[..k], budget) == n + Charge(codec, places[1..][..k - 1], budget - n)
            && (k < |places| ==> Turn(codec, places, k, budget) == Turn(codec, places[1..], k - 1, budget - n))
  {
    assert places[..k][0] == places[0] && places[..k][1..] == places[1..][..k - 1];
  }

  /** None of the first k candidates comes to an ELF image. */
  predicate NoImage(codec: Codec, places: seq<Place>, k: nat, budget: int)
    requires k <= |places|
  {
    forall j | 0 <= j < k :: !Turn(codec, places, j, budget).complete || !IsElf(Turn(codec, places, j, budget).output)
  }

  lemma NoneBefore(codec: Codec, places: seq<Place>, k: nat, budget: int)
    requires k < |places|
    requires var c := codec(places[0], budget);
             !(c.complete && IsElf(c.output)) && NoImage(codec, places[1..], k, budget - |c.output|)
    ensures NoImage(codec, places, k + 1, budget)
  {
    hide IsElf, Turn;
    forall j | 0 <= j <= k ensures !Turn(codec, places, j, budget).complete || !IsElf(Turn(codec, places, j, budget).output) {
      if j > 0 {
        TurnAfter(codec, places, j, budget);
      } else {
        FirstTurn(codec, places, budget);
      }
    }
  }

  /** What a verdict means.  k candidates were tried before it, none of them an ELF, and together
      within the budget; then the next one is an ELF that also fits, or there is no next one, or it
      would be the 65th, or its output passes what the others left of the budget. */
  lemma {:induction false} VerdictMeans(codec: Codec, places: seq<Place>, tried: nat, budget: int) returns (k: nat)
    requires tried <= CANDIDATES_MAX && budget >= 0
    ensures k <= |places| && tried + k <= CANDIDATES_MAX && Charge(codec, places[..k], budget) <= budget
    ensures NoImage(codec, places, k, budget)
    ensures match Choose(codec, places, tried, budget)
            case Image(bytes) =>
              && k < |places| && tried + k < CANDIDATES_MAX
              && Turn(codec, places, k, budget) == Stream(bytes, true) && IsElf(bytes)
              && Charge(codec, places[..k + 1], budget) <= budget
            case NoPayload => k == |places|
            case TooManyCandidates => k < |places| && tried + k == CANDIDATES_MAX
            case OverBudget => k < |places| && tried + k < CANDIDATES_MAX && Charge(codec, places[..k + 1], budget) > budget
  {
    hide IsElf, NoImage;
    k := 0;
    NoneAtAll(codec, places, budget);
    if places != [] {
      var c := codec(places[0], budget);
      assert places[..1] == [places[0]] && places[..1][1..] == [] && places[..0] == [];
      if tried < CANDIDATES_MAX && |c.output| <= budget && !(c.complete && IsElf(c.output)) {
        var rest := VerdictMeans(codec, places[1..], tried + 1, budget - |c.output|);
        k := rest + 1;
        hide Turn, Charge;
        TurnAfter(codec, places, k, budget);
        if k < |places| {
          TurnAfter(codec, places, k + 1, budget);
        }
        NoneBefore(codec, places, rest, budget);
      }
    }
  }

  lemma NoneAtAll(codec: Codec, places: seq<Place>, budget: int)
    ensures NoImage(codec, places, 0, budget)
  {
  }

  lemma FirstTurn(codec: Codec, places: seq<Place>, budget: int)
    requires places != []
    ensures Turn(codec, places, 0, budget) == codec(places[0], budget)
  {
    assert places[..0] == [];
  }

  /** A decompressor being read. */
  class Decoder {
    const stream: Stream
    var given: nat
    /** Calls it may still answer with nothing while it takes in input. */
    var idle: nat

    constructor (stream: Stream, idle: nat)
      ensures this.stream == stream && given == 0 && fresh(this)
    {
      this.stream, given, this.idle := stream, 0, idle;
    }

    ghost predicate Valid()
      reads this
    {
      given <= |stream.output|
    }

    /** read(n) of a file-like decoder: some output, nothing at the end, or an exception. */
    method Read(n: nat) returns (r: Result<seq<Byte>, ()>)
      requires Valid() && n > 0
      modifies this`given
      ensures Valid()
      ensures r.Err? ==> given == old(given) == |stream.output| && !stream.complete
      ensures r.Ok? ==> |r.value| <= n && given == old(given) + |r.value| && r.value == stream.output[old(given)..given]
      ensures r == Ok([]) ==> given == |stream.output| && stream.complete
    {
      if given == |stream.output| {
        return if stream.complete then Ok([]) else Err(());
      }
      var k: nat :| 1 <= k <= n && given + k <= |stream.output|;
      r := Ok(stream.output[given..given + k]);
      given := given + k;
    }

    /** decompress(data, n) of a streaming decoder: output that may be empty while input is taken
        in, and whether the end is reached. */
    method Decompress(n: nat) returns (r: Result<(seq<Byte>, bool), ()>)
      requires Valid() && n > 0
      modifies this
      ensures Valid()
      ensures r.Err? ==> given == old(given) == |stream.output| && !stream.complete
      ensures r.Ok? ==>
                && |r.value.0| <= n && given == old(given) + |r.value.0| && r.value.0 == stream.output[old(given)..given]
                && (r.value.1 <==> given == |stream.output| && stream.complete)
                && (!r.value.1 ==> given > old(given) || idle < old(idle))
                && idle <= old(idle)
    {
      var k: nat := 0;
      if idle > 0 && (given < |stream.output| || !stream.complete) {
        idle := idle - 1;
      } else if given < |stream.output| {
        k :| 1 <= k <= n && given + k <= |stream.output|;
      } else if !stream.complete {
        return Err(());
      }
      var chunk := stream.output[given..given + k];
      given := given + k;
      r := Ok((chunk, given == |stream.output| && stream.complete));
    }
  }

  /** The spooled output file. */
  class Spool {
    var content: seq<Byte>
    var position: nat

    constructor ()
      ensures content == [] && position == 0
    {
      content, position := [], 0;
    }

    method Write(chunk: seq<Byte>)
      requires position <= |content|
      modifies this
      ensures content == old(content)[..old(position)] + chunk + Slice(old(content), old(position) + |chunk|, |old(content)| + |chunk|)
      ensures position == old(position) + |chunk| <= |content|
    {
      content := content[..position] + chunk + Slice(content, position + |chunk|, |content| + |chunk|);
      position := position + |chunk|;
    }

    method Seek(offset: nat)
      modifies this`position
      ensures position == offset
    {
      position := offset;
    }

    method Truncate()
      requires position <= |content|
      modifies this`content
      ensures content == old(content)[..position]
    {
      content := content[..position];
    }

    method Read(n: nat) returns (data: seq<Byte>)
      requires position <= |content|
      modifies this`position
      ensures data == Slice(content, old(position), old(position) + n) && position == old(position) + |data|
    {
      data := Slice(content, position, position + n);
      position := position + |data|;
    }
  }

  datatype Copied = Complete(total: nat) | CodecError | LimitExceeded

  /** _DecodeBudget, shared by all candidates of one member. */
  class Budget {
    var remaining: int

    constructor ()
      ensures remaining == DECODED_KERNEL_MAX_BYTES
    {
      remaining := DECODED_KERNEL_MAX_BYTES;
    }
  }

  /** What a bounded copy of a stream into an empty spool comes to: within the budget all of the
      output is written and charged, and beyond it the copy is refused with one byte too many
      charged. */
  ghost predicate CopyOutcome(stream: Stream, before: int, after: int, content: seq<Byte>, position: nat, r: Copied) {
    if |stream.output| > before then
      r == LimitExceeded && after == -1
    else
      && after == before - |stream.output|
      && content == stream.output && position == |content|
      && r == if stream.complete then Complete(|stream.output|) else CodecError
  }

  /** _copy_kernel_bounded. */
  method CopyKernelBounded(decoder: Decoder, destination: Spool, budget: Budget) returns (r: Copied)
    requires decoder.Valid() && decoder.given == 0
    requires destination.content == [] && destination.position == 0 && budget.remaining >= 0
    modifies decoder, destination, budget
    ensures CopyOutcome(decoder.stream, old(budget.remaining), budget.remaining, destination.content, destination.position, r)
  {
    var total := 0;
    ghost var output := decoder.stream.output;
    while true
      invariant decoder.Valid() && total == decoder.given
      invariant 0 <= budget.remaining == old(budget.remaining) - total
      invariant destination.content == output[..total] && destination.position == total
      decreases |output| - total
    {
      var chunk := decoder.Read(Min(DECODE_CHUNK_BYTES, budget.remaining + 1));
      if chunk.Err? {
        assert output[..total] == output;
        return CodecError;
      }
      if chunk.value == [] {
        assert output[..total] == output;
        return Complete(total);
      }
      assert output[..total] + chunk.value == output[..decoder.given];
      total := total + |chunk.value|;
      budget.remaining := budget.remaining - |chunk.value|;
      if budget.remaining < 0 {
        return LimitExceeded;
      }
      destination.Write(chunk.value);
    }
  }

  /** The gzip and zstd copies: one frame, until the decompressor reports its end. */
  method CopyFrameBounded(decoder: Decoder, destination: Spool, budget: Budget) returns (r: Copied)
    requires decoder.Valid() && decoder.given == 0
    requires destination.content == [] && destination.position == 0 && budget.remaining >= 0
    modifies decoder, destination, budget
    ensures CopyOutcome(decoder.stream, old(budget.remaining), budget.remaining, destination.content, destination.position, r)
  {
    var total := 0;
    var ended := false;
    ghost var output := decoder.stream.output;
    while !ended
      invariant decoder.Valid() && total == decoder.given
      invariant 0 <= budget.remaining == old(budget.remaining) - total
      invariant destination.content == output[..total] && destination.position == total
      invariant ended ==> total == |output| && decoder.stream.complete
      decreases |output| - total, decoder.idle, !ended
    {
      var step := decoder.Decompress(Min(DECODE_CHUNK_BYTES, budget.remaining + 1));
      if step.Err? {
        assert output[..total] == output;
        return CodecError;
      }
      var chunk := step.value.0;
      assert output[..total] + chunk == output[..decoder.given];
      total := total + |chunk|;
      budget.remaining := budget.remaining - |chunk|;
      if budget.remaining < 0 {
        return LimitExceeded;
      }
      destination.Write(chunk);
      ended := step.value.1;
    }
    assert output[..total] == output;
    r := Complete(total);
  }

  /** The bounded copy of a format: bzip2 and xz read a file object, gzip and zstd one frame. */
  method CopyBounded(format: nat, decoder: Decoder, destination: Spool, budget: Budget) returns (r: Copied)
    requires decoder.Valid() && decoder.given == 0
    requires destination.content == [] && destination.position == 0 && budget.remaining >= 0
    modifies decoder, destination, budget
    ensures CopyOutcome(decoder.stream, old(budget.remaining), budget.remaining, destination.content, destination.position, r)
  {
    if format == 0 || format == 3 {
      r := CopyFrameBounded(decoder, destination, budget);
    } else {
      r := CopyKernelBounded(decoder, destination, budget);
    }
  }

  /** One candidate: either a verdict, or the spool is as empty as before and the budget is charged
      with everything the decoder produced. */
  method TryCandidate(format: nat, stream: Stream, idle: nat, decoded: Spool, budget: Budget) returns (r: Option<Verdict>)
    requires decoded.content == [] && decoded.position == 0 && budget.remaining >= 0
    modifies decoded, budget
    ensures r == if |stream.output| > old(budget.remaining) then Some(OverBudget)
                 else if stream.complete && IsElf(stream.output) then Some(Image(stream.output))
                 else None
    ensures r.None? ==>
              && decoded.content == [] && decoded.position == 0
              && budget.remaining == old(budget.remaining) - |stream.output|
  {
    var decoder := new Decoder(stream, idle);
    var copied := CopyBounded(format, decoder, decoded, budget);
    if copied == LimitExceeded {
      return Some(OverBudget);
    }
    if copied == CodecError {
      decoded.Seek(0);
      decoded.Truncate();
      return None;
    }
    decoded.Seek(0);
    var head := decoded.Read(4);
    if head == ELF_MAGIC {
      decoded.Seek(0);
      return Some(Image(decoded.content));
    }
    decoded.Seek(0);
    decoded.Truncate();
    r := None;
  }

  datatype Arch = X86 | Ppc64le

  /** _decoded_kernel.  A ppc64le member is its own image; an x86_64 member holds a compressed one. */
  method DecodedKernel(boot: File, arch: Arch, codec: Codec, idle: nat) returns (r: Verdict)
    modifies boot
    ensures match arch
            case Ppc64le => r == if |boot.bytes| > DECODED_KERNEL_MAX_BYTES then OverBudget else Image(boot.bytes)
            case X86 => r == Choose(codec, Candidates(boot.bytes, 0), 0, DECODED_KERNEL_MAX_BYTES)
  {
    var decoded := new Spool();
    var budget := new Budget();
    if arch.Ppc64le? {
      var reader := new Decoder(Stream(boot.bytes, true), 0);
      var copied := CopyKernelBounded(reader, decoded, budget);
      decoded.Seek(0);
      return if copied == LimitExceeded then OverBudget else Image(decoded.content);
    }
    var tried: nat := 0;
    for format := 0 to |MAGICS|
      invariant decoded.content == [] && decoded.position == 0 && 0 <= budget.remaining && tried <= CANDIDATES_MAX
      invariant Choose(codec, Candidates(boot.bytes, 0), 0, DECODED_KERNEL_MAX_BYTES)
             == Choose(codec, Candidates(boot.bytes, format), tried, budget.remaining)
    {
      var verdict: Option<Verdict>;
      verdict, tried := TryFormat(boot, codec, format, idle, tried, decoded, budget);
      if verdict.Some? {
        return verdict.value;
      }
    }
    r := NoPayload;
  }

  /** The verdict once the candidates before the k-th are behind. */
  ghost function Rest(codec: Codec, places: seq<Place>, k: nat, later: seq<Place>, tried: nat, budget: int): Verdict
    requires k <= |places|
  {
    Choose(codec, places[k..] + later, tried, budget)
  }

  lemma RestNext(codec: Codec, places: seq<Place>, k: nat, later: seq<Place>, tried: nat, budget: int)
    requires k < |places|
    ensures var c := codec(places[k], budget);
            Rest(codec, places, k, later, tried, budget) ==
            if tried >= CANDIDATES_MAX then TooManyCandidates
            else if |c.output| > budget then OverBudget
            else if c.complete && IsElf(c.output) then Image(c.output)
            else Rest(codec, places, k + 1, later, tried + 1, budget - |c.output|)
  {
    hide IsElf;
    assert (places[k..] + later)[1..] == places[k + 1..] + later;
  }

  lemma RestEnds(codec: Codec, places: seq<Place>, later: seq<Place>, tried: nat, budget: int)
    ensures Rest(codec, places, 0, later, tried, budget) == Choose(codec, places + later, tried, budget)
    ensures Rest(codec, places, |places|, later, tried, budget) == Choose(codec, later, tried, budget)
  {
    assert places[0..] == places && places[|places|..] + later == later;
  }

  lemma CandidatesSplit(bytes: seq<Byte>, format: nat)
    requires format < |MAGICS|
    ensures Candidates(bytes, format) == Places(format, All(bytes, MAGICS[format])) + Candidates(bytes, format + 1)
  {
  }

  /** All candidates of one format. */
  method TryFormat(boot: File, codec: Codec, format: nat, idle: nat, already: nat, decoded: Spool, budget: Budget)
    returns (r: Option<Verdict>, tried: nat)
    requires format < |MAGICS| && already <= CANDIDATES_MAX
    requires decoded.content == [] && decoded.position == 0 && 0 <= budget.remaining
    modifies boot, decoded, budget
    ensures var goal := Choose(codec, Candidates(boot.bytes, format), already, old(budget.remaining));
            if r.Some? then r.value == goal
            else
              && decoded.content == [] && decoded.position == 0 && 0 <= budget.remaining && tried <= CANDIDATES_MAX
              && goal == Choose(codec, Candidates(boot.bytes, format + 1), tried, budget.remaining)
  {
    hide Candidates, Occurrences, Occurs, All, Scanning, IsElf, Choose, Rest, Places;
    tried := already;
    var offsets := new Offsets(boot, MAGICS[format]);
    ghost var all := All(boot.bytes, MAGICS[format]);
    ghost var places := Places(format, all);
    ghost var later := Candidates(boot.bytes, format + 1);
    RestEnds(codec, places, later, already, budget.remaining);
    ghost var goal := Rest(codec, places, 0, later, already, budget.remaining);
    CandidatesSplit(boot.bytes, format);
    while true
      invariant offsets.Valid() && offsets.file == boot && offsets.magic == MAGICS[format]
      invariant already <= CANDIDATES_MAX && offsets.count <= |all| && tried == already + offsets.count <= CANDIDATES_MAX
      invariant decoded.content == [] && decoded.position == 0 && 0 <= budget.remaining
      invariant goal == Rest(codec, places, offsets.count, later, tried, budget.remaining)
      decreases |all| - offsets.count
    {
      if offsets.count < |all| {
        RestNext(codec, places, offsets.count, later, tried, budget.remaining);
      }
      var next := offsets.Next();
      if next.Err? {
        return Some(TooManyCandidates), tried;
      }
      if next.value.None? {
        RestEnds(codec, places, later, tried, budget.remaining);
        return None, tried;
      }
      if tried + 1 > CANDIDATES_MAX {
        return Some(TooManyCandidates), tried;
      }
      tried := tried + 1;
      boot.position := next.value.value;
      r := TryCandidate(format, codec(Place(format, next.value.value), budget.remaining), idle, decoded, budget);
      if r.Some? {
        return;
      }
    }
  }
}
