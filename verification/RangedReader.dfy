/** Reading a stored object through bounded range requests, and hashing it on the way. */
module RangedReader {
  import opened Wrappers
  import opened Bytes

  const RANGE_CHUNK_BYTES: nat := 8 * 1024 * 1024

  datatype Failure = EndedEarly | ReplyTooLong

  /** SHA-256 of a byte string, free of collisions. */
  datatype Digest = Sha256(bytes: seq<Byte>)

  /** data is what the object holds from start on. */
  predicate IsRange(content: seq<Byte>, start: nat, data: seq<Byte>) {
    data == Slice(content, start, start + |data|)
  }

  /** An object store pinned to one version of one object.  A faithful store answers a range in
      full; any other may answer short, with nothing, or with more than was asked. */
  class Store {
    const content: seq<Byte>
    const faithful: bool

    constructor (content: seq<Byte>, faithful: bool)
      ensures this.content == content && this.faithful == faithful
    {
      this.content, this.faithful := content, faithful;
    }

    method GetRange(start: nat, length: nat) returns (data: seq<Byte>)
      ensures IsRange(content, start, data)
      ensures faithful ==> data == Slice(content, start, start + length)
    {
      var n := length;
      if !faithful {
        n :| n >= 0;
      }
      data := Slice(content, start, start + n);
    }
  }

  /** _ObjectDigest: hash a stored object once, at contiguous offsets. */
  class ObjectDigest {
    const store: Store
    const size: nat
    /** The bytes fed to SHA-256 so far, in order. */
    var hashed: seq<Byte>
    var offset: nat

    constructor (store: Store, size: nat)
      ensures Valid() && this.store == store && this.size == size && offset == 0
    {
      this.store, this.size := store, size;
      hashed, offset := [], 0;
    }

    ghost predicate Valid()
      reads this
    {
      && offset <= |store.content|
      && hashed == store.content[..offset]
    }

    /** Whatever range arrives, the hashed bytes stay a prefix of the object: the part of the range
        that continues them is added, nothing else. */
    method Observe(start: nat, data: seq<Byte>)
      requires Valid() && IsRange(store.content, start, data)
      modifies this
      ensures Valid()
      ensures offset == if start <= old(offset) then Max(old(offset), start + |data|) else old(offset)
    {
      if start > offset {
        return;
      }
      var prefix := offset - start;
      if prefix >= |data| {
        return;
      }
      var suffix := data[prefix..];
      assert store.content[..offset] + suffix == store.content[..offset + |suffix|];
      hashed := hashed + suffix;
      offset := offset + |suffix|;
    }

    /** Fetch what no reader fetched. */
    method Drain() returns (r: Result<(), Failure>)
      requires Valid()
      modifies this
      ensures Valid()
      ensures r.Ok? ==> offset == Max(old(offset), size)
      ensures store.faithful && size <= |store.content| ==> r.Ok?
    {
      while offset < size
        invariant Valid() && old(offset) <= offset <= Max(old(offset), size)
        decreases size - offset
      {
        var length := Min(RANGE_CHUNK_BYTES, size - offset);
        var data := store.GetRange(offset, length);
        if data == [] {
          return Err(EndedEarly);
        }
        if |data| > length {
          return Err(ReplyTooLong);
        }
        Observe(offset, data);
      }
      r := Ok(());
    }

    method Value() returns (r: Result<Digest, Failure>)
      requires Valid()
      ensures r == if offset == size then Ok(Sha256(store.content[..size])) else Err(EndedEarly)
    {
      r := if offset != size then Err(EndedEarly) else Ok(Sha256(hashed));
    }
  }

  datatype Whence = FromStart | FromCurrent | FromEnd | Unsupported

  datatype Operation = Read(count: int) | Seek(distance: int, whence: Whence) | Tell

  datatype Answer = Data(bytes: seq<Byte>) | Position(position: nat) | ValueError

  /** How far read(count) reaches from a position. */
  function ReadLength(size: nat, position: nat, count: int): nat {
    if count == 0 || position >= size then 0
    else if count < 0 then size - position
    else Min(count, size - position)
  }

  function SeekTarget(size: nat, position: nat, distance: int, whence: Whence): Option<nat> {
    var target :=
      match whence
      case FromStart => distance
      case FromCurrent => position + distance
      case FromEnd => size + distance
      case Unsupported => -1;
    if target < 0 then None else Some(target)
  }

  /** The reference: a file object over the bytes in memory. */
  function PlainStep(content: seq<Byte>, size: nat, position: nat, op: Operation): (nat, Answer) {
    match op
    case Read(count) =>
      var bytes := Slice(content, position, position + ReadLength(size, position, count));
      (position + |bytes|, Data(bytes))
    case Seek(distance, whence) =>
      var target := SeekTarget(size, position, distance, whence);
      if target.Some? then (target.value, Position(target.value)) else (position, ValueError)
    case Tell => (position, Position(position))
  }

  function PlainRun(content: seq<Byte>, size: nat, position: nat, ops: seq<Operation>): (nat, seq<Answer>) {
    if ops == [] then (position, [])
    else
      var (before, answers) := PlainRun(content, size, position, ops[..|ops| - 1]);
      var (after, answer) := PlainStep(content, size, before, ops[|ops| - 1]);
      (after, answers + [answer])
  }

  /** An answer a file over an unreliable store may give: some of the bytes, and in everything else
      what a plain file gives. */
  predicate AnswersStep(content: seq<Byte>, size: nat, position: nat, op: Operation, answer: Answer) {
    var plain := PlainStep(content, size, position, op).1;
    if op.Read? then answer.Data? && answer.bytes <= plain.bytes else answer == plain
  }

  function PositionAfter(position: nat, answer: Answer): nat {
    match answer
    case Data(bytes) => position + |bytes|
    case Position(target) => target
    case ValueError => position
  }

  /** Where a file stands after these answers. */
  function PositionOf(position: nat, ops: seq<Operation>, answers: seq<Answer>): nat
    requires |answers| <= |ops|
  {
    if answers == [] then position
    else
      var last := |answers| - 1;
      PositionAfter(PositionOf(position, ops, answers[..last]), answers[last])
  }

  /** Every answer is allowed at the position the answers before it lead to. */
  ghost predicate Answers(content: seq<Byte>, size: nat, position: nat, ops: seq<Operation>, answers: seq<Answer>) {
    && |answers| <= |ops|
    && forall i | 0 <= i < |answers| :: AnswersStep(content, size, PositionOf(position, ops, answers[..i]), ops[i], answers[i])
  }

  lemma AnswersNone(content: seq<Byte>, size: nat, position: nat, ops: seq<Operation>)
    ensures Answers(content, size, position, ops, [])
  {
  }

  lemma AnswersSnoc(content: seq<Byte>, size: nat, position: nat, ops: seq<Operation>, answers: seq<Answer>, answer: Answer)
    requires Answers(content, size, position, ops, answers) && |answers| < |ops|
    requires AnswersStep(content, size, PositionOf(position, ops, answers), ops[|answers|], answer)
    ensures Answers(content, size, position, ops, answers + [answer])
    ensures PositionOf(position, ops, answers + [answer])
         == PositionAfter(PositionOf(position, ops, answers), answer)
  {
    var all := answers + [answer];
    forall i | 0 <= i < |all| ensures AnswersStep(content, size, PositionOf(position, ops, all[..i]), ops[i], all[i]) {
      assert all[..i] == answers[..i];
      assert answers[..|answers|] == answers;
    }
    assert all[..|answers|] == answers;
  }

  lemma BufferedPart(content: seq<Byte>, start: nat, buffer: seq<Byte>, cursor: nat, length: nat)
    requires IsRange(content, start, buffer) && start <= cursor < start + |buffer|
    ensures var part := Slice(buffer, cursor - start, cursor - start + length);
            part == Slice(content, cursor, cursor + |part|)
  {
  }

  /** _RangedReader: a seekable reader with one read-ahead buffer. */
  class Reader {
    const store: Store
    const size: nat
    const observer: ObjectDigest?
    var offset: nat
    var bufferStart: nat
    var buffer: seq<Byte>

    constructor (store: Store, size: nat, observer: ObjectDigest?)
      requires observer != null ==> observer.Valid() && observer.store == store && observer.size == size && observer.offset <= size
      ensures Valid() && this.store == store && this.size == size && this.observer == observer && offset == 0
    {
      this.store, this.size, this.observer := store, size, observer;
      offset, bufferStart, buffer := 0, 0, [];
    }

    /** The buffer is always the slice of the object at its recorded start. */
    ghost predicate Valid()
      reads this, observer
    {
      && IsRange(store.content, bufferStart, buffer)
      && (observer != null ==> observer.Valid() && observer.store == store && observer.size == size && observer.offset <= size)
    }

    /** Every read is a prefix of what a plain file would return, and with a faithful store all of
        it; a reply longer than asked for is refused before anything is taken from it. */
    method Read(count: int) returns (r: Result<seq<Byte>, Failure>)
      requires Valid()
      modifies this, observer
      ensures Valid()
      ensures var want := Slice(store.content, old(offset), old(offset) + ReadLength(size, old(offset), count));
              && (r.Ok? ==> r.value <= want && offset == old(offset) + |r.value|)
              && (store.faithful ==> r == Ok(want))
      ensures r.Err? ==> offset == old(offset) && r.error == ReplyTooLong
      ensures observer != null ==> old(observer.offset) <= observer.offset
    {
      hide IsRange;
      if count == 0 || offset >= size {
        return Ok([]);
      }
      var length := ReadLength(size, offset, count);
      var output := Buffered(length);
      var cursor := offset + |output|;
      JoinSlices(store.content, offset, cursor, offset + length);
      var remaining := length - |output|;
      if remaining == 0 || cursor >= size {
        offset := cursor;
        return Ok(output);
      }
      var data :- Fetch(cursor, remaining);
      offset := cursor + |data|;
      r := Ok(output + data);
    }

    /** The part of read that the buffer answers. */
    method Buffered(length: nat) returns (output: seq<Byte>)
      requires Valid()
      ensures |output| <= length && output == Slice(store.content, offset, offset + |output|)
    {
      output := [];
      if bufferStart <= offset < bufferStart + |buffer| {
        output := Slice(buffer, offset - bufferStart, offset - bufferStart + length);
        BufferedPart(store.content, bufferStart, buffer, offset, length);
      }
    }

    /** The part of read that asks the store, with read-ahead for short requests. */
    method Fetch(cursor: nat, remaining: nat) returns (r: Result<seq<Byte>, Failure>)
      requires Valid() && 0 < remaining <= size - cursor
      modifies this`buffer, this`bufferStart, observer
      ensures Valid()
      ensures var want := Slice(store.content, cursor, cursor + remaining);
              && (r.Ok? ==> r.value <= want)
              && (store.faithful ==> r == Ok(want))
      ensures r.Err? ==> r.error == ReplyTooLong
      ensures observer != null ==> old(observer.offset) <= observer.offset
    {
      var fetchLength := if remaining > RANGE_CHUNK_BYTES then remaining else Min(RANGE_CHUNK_BYTES, size - cursor);
      var data := store.GetRange(cursor, fetchLength);
      if data == [] {
        return Ok([]);
      }
      if |data| > fetchLength {
        return Err(ReplyTooLong);
      }
      if observer != null {
        observer.Observe(cursor, data);
      }
      if fetchLength <= RANGE_CHUNK_BYTES {
        bufferStart := cursor;
        buffer := data;
        data := Slice(data, 0, remaining);
      } else {
        buffer := [];
      }
      assert store.faithful ==> data == Slice(store.content, cursor, cursor + remaining);
      r := Ok(data);
    }

    method Seek(distance: int, whence: Whence) returns (r: Option<nat>)
      requires Valid()
      modifies this
      ensures Valid()
      ensures r == SeekTarget(size, old(offset), distance, whence)
      ensures offset == if r.Some? then r.value else old(offset)
    {
      r := SeekTarget(size, offset, distance, whence);
      if r.Some? {
        if !(bufferStart <= r.value <= bufferStart + |buffer|) {
          buffer := [];
        }
        offset := r.value;
      }
    }

    /** One operation; None is an overlong reply. */
    method Perform(op: Operation) returns (answer: Option<Answer>)
      requires Valid()
      modifies this, observer
      ensures Valid()
      ensures answer.Some? ==>
                && AnswersStep(store.content, size, old(offset), op, answer.value)
                && offset == PositionAfter(old(offset), answer.value)
      ensures answer.None? ==> offset == old(offset)
      ensures store.faithful ==> answer.Some? && (offset, answer.value) == PlainStep(store.content, size, old(offset), op)
    {
      match op {
        case Read(count) =>
          var r := Read(count);
          answer := if r.Ok? then Some(Data(r.value)) else None;
        case Seek(distance, whence) =>
          var position := Seek(distance, whence);
          answer := Some(if position.Some? then Position(position.value) else ValueError);
        case Tell =>
          answer := Some(Position(offset));
      }
    }

    /** Any sequence of reads, seeks and tells.  Whatever the store replies, the reader keeps its
        invariant (and with it the observer's) and every answer is a prefix of the plain one at its
        position; over a faithful store it answers like a plain file. */
    method Drive(ops: seq<Operation>) returns (answers: seq<Answer>, failed: bool)
      requires Valid()
      modifies this, observer
      ensures Valid()
      ensures Answers(store.content, size, old(offset), ops, answers) && (failed <==> |answers| < |ops|)
      ensures offset == PositionOf(old(offset), ops, answers)
      ensures store.faithful ==> !failed && (offset, answers) == PlainRun(store.content, size, old(offset), ops)
    {
      hide Answers, AnswersStep, PlainStep, PositionAfter;
      answers, failed := [], false;
      AnswersNone(store.content, size, offset, ops);
      for i := 0 to |ops|
        invariant Valid() && |answers| == i
        invariant Answers(store.content, size, old(offset), ops, answers) && offset == PositionOf(old(offset), ops, answers)
        invariant store.faithful ==> (offset, answers) == PlainRun(store.content, size, old(offset), ops[..i])
      {
        assert ops[..i + 1][..i] == ops[..i];
        var answer := Perform(ops[i]);
        if answer.None? {
          return answers, true;
        }
        AnswersSnoc(store.content, size, old(offset), ops, answers, answer.value);
        answers := answers + [answer.value];
      }
      assert ops[..|ops|] == ops;
    }
  }

  /** The bundle digest of _external_boot_evidence: whatever the archive scan reads in between, the
      digest is that of the whole object. */
  method BundleDigest(store: Store, size: nat, ops: seq<Operation>) returns (r: Result<Digest, Failure>)
    ensures r.Ok? ==> size <= |store.content| && r.value == Sha256(store.content[..size])
    ensures store.faithful && size <= |store.content| ==> r.Ok?
  {
    var digest := new ObjectDigest(store, size);
    var reader := new Reader(store, size, digest);
    var _, failed := reader.Drive(ops);
    if failed {
      return Err(ReplyTooLong);
    }
    var _ :- digest.Drain();
    r := digest.Value();
  }
}
