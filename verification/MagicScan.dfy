/** _magic_offsets: every place a compression magic occurs in the boot member, found chunk by chunk
    while the consumer keeps moving the file. */
module MagicScan {
  import opened Wrappers
  import opened Bytes

  const CANDIDATES_MAX: nat := 64

  predicate Occurs(data: seq<Byte>, magic: seq<Byte>, i: nat) {
    i + |magic| <= |data| && data[i..i + |magic|] == magic
  }

  /** bytes.find: the first occurrence at or after start. */
  function Find(data: seq<Byte>, magic: seq<Byte>, start: nat): (r: Option<nat>)
    requires start <= |data|
    ensures match r
            case Some(i) => start <= i && Occurs(data, magic, i) && forall j: nat | start <= j < i :: !Occurs(data, magic, j)
            case None => forall j: nat | start <= j :: !Occurs(data, magic, j)
    decreases |data| - start
  {
    if Occurs(data, magic, start) then Some(start)
    else if start == |data| then None
    else Find(data, magic, start + 1)
  }

  /** All occurrences in [0, end), in ascending order. */
  function Occurrences(data: seq<Byte>, magic: seq<Byte>, end: nat): (r: seq<nat>)
    ensures forall i | 0 <= i < |r| :: r[i] < end
  {
    if end == 0 then []
    else Occurrences(data, magic, end - 1) + (if Occurs(data, magic, end - 1) then [end - 1] else [])
  }

  function All(data: seq<Byte>, magic: seq<Byte>): seq<nat> {
    Occurrences(data, magic, |data|)
  }

  /** The list is exactly the set of occurrences, strictly ascending. */
  lemma {:induction false} OccurrencesAreExact(data: seq<Byte>, magic: seq<Byte>, end: nat)
    ensures var r := Occurrences(data, magic, end);
            && (forall i :: i in r <==> 0 <= i < end && Occurs(data, magic, i))
            && (forall a, b | 0 <= a < b < |r| :: r[a] < r[b])
  {
    if end > 0 {
      OccurrencesAreExact(data, magic, end - 1);
    }
  }

  lemma {:induction false} SkipGap(data: seq<Byte>, magic: seq<Byte>, from: nat, upto: nat)
    requires from <= upto && forall j: nat | from <= j < upto :: !Occurs(data, magic, j)
    ensures Occurrences(data, magic, upto) == Occurrences(data, magic, from)
    decreases upto
  {
    if from < upto {
      SkipGap(data, magic, from, upto - 1);
    }
  }

  lemma {:induction false} PrefixOfAll(data: seq<Byte>, magic: seq<Byte>, from: nat, upto: nat)
    requires from <= upto
    ensures Occurrences(data, magic, from) <= Occurrences(data, magic, upto)
    decreases upto
  {
    if from < upto {
      PrefixOfAll(data, magic, from, upto - 1);
    }
  }

  lemma OccursInWindow(data: seq<Byte>, magic: seq<Byte>, base: nat, end: nat, j: nat)
    requires base <= end <= |data|
    ensures Occurs(data[base..end], magic, j) <==> Occurs(data, magic, base + j) && base + j + |magic| <= end
  {
    if base + j + |magic| <= end {
      SliceOfSlice(data, base, end, j, j + |magic|);
    }
  }

  /** The first occurrence after a gap is the next one in the list. */
  lemma Reached(data: seq<Byte>, magic: seq<Byte>, from: nat, upto: nat)
    requires from <= upto && Occurs(data, magic, upto) && |magic| > 0
    requires forall j: nat | from <= j < upto :: !Occurs(data, magic, j)
    ensures var known, all := Occurrences(data, magic, from), All(data, magic);
            && |known| < |all| && all[|known|] == upto
            && Occurrences(data, magic, upto + 1) == known + [upto]
  {
    SkipGap(data, magic, from, upto);
    PrefixOfAll(data, magic, upto + 1, |data|);
  }

  /** Searching a window of the file: a hit is the next offset in the list, a miss leaves none that
      ends in the window. */
  lemma SearchWindow(data: seq<Byte>, magic: seq<Byte>, base: nat, end: nat, start: nat)
    requires base + start <= end <= |data| && |magic| > 0
    ensures match Find(data[base..end], magic, start)
            case Some(i) =>
              var known, all := Occurrences(data, magic, base + start), All(data, magic);
              && start <= i && base + i + |magic| <= end
              && |known| < |all| && all[|known|] == base + i
              && Occurrences(data, magic, base + i + 1) == known + [base + i]
            case None =>
              forall j: nat | base + start <= j && j + |magic| <= end :: !Occurs(data, magic, j)
  {
    hide Occurrences, Occurs;
    var found := Find(data[base..end], magic, start);
    var stop := if found.Some? then base + found.value else end;
    forall j: nat | base + start <= j < stop && j + |magic| <= end ensures !Occurs(data, magic, j) {
      OccursInWindow(data, magic, base, end, j - base);
    }
    if found.Some? {
      OccursInWindow(data, magic, base, end, found.value);
      Reached(data, magic, base + start, stop);
    }
  }

  /** A missed window can be left for its last |magic| - 1 bytes, or for good at the end of the file. */
  lemma SkipToTail(data: seq<Byte>, magic: seq<Byte>, base: nat, end: nat, start: nat)
    requires base + start <= end <= |data| && |magic| > 0 && (start == 0 || base + start + |magic| <= end + 1)
    requires forall j: nat | base + start <= j && j + |magic| <= end :: !Occurs(data, magic, j)
    ensures Occurrences(data, magic, end - Min(|magic| - 1, end - base)) == Occurrences(data, magic, base + start)
    ensures end == |data| ==> All(data, magic) == Occurrences(data, magic, base + start)
  {
    SkipGap(data, magic, base + start, end - Min(|magic| - 1, end - base));
    if end == |data| {
      SkipGap(data, magic, base + start, |data|);
    }
  }

  predicate IsWindow(data: seq<Byte>, base: nat, part: seq<Byte>) {
    base + |part| <= |data| && part == data[base..base + |part|]
  }

  lemma JoinWindow(data: seq<Byte>, base: nat, part: seq<Byte>, keep: nat, chunk: seq<Byte>)
    requires IsWindow(data, base, part) && chunk == Slice(data, base + |part|, base + |part| + |chunk|)
    ensures IsWindow(data, base + |part| - |Last(part, keep)|, Last(part, keep) + chunk)
  {
    var tail, end := Last(part, keep), base + |part|;
    SliceOfSlice(data, base, end, |part| - |tail|, |part|);
    assert tail == data[end - |tail|..end];
  }

  /** The data in hand is a slice of the file, and the offsets yielded so far are all those below
      the place in it that the scan has reached. */
  ghost predicate Scanning(bytes: seq<Byte>, magic: seq<Byte>, base: nat, data: seq<Byte>, start: nat, count: nat) {
    && IsWindow(bytes, base, data)
    && (start == 0 || start + |magic| <= |data| + 1)
    && count == |Occurrences(bytes, magic, base + start)| <= CANDIDATES_MAX
  }

  /** Moving on from a missed window. */
  lemma ScanOn(bytes: seq<Byte>, magic: seq<Byte>, base: nat, data: seq<Byte>, start: nat, count: nat, chunk: seq<Byte>)
    requires |magic| >= 2 && Scanning(bytes, magic, base, data, start, count)
    requires forall j: nat | base + start <= j && j + |magic| <= base + |data| :: !Occurs(bytes, magic, j)
    requires chunk == Slice(bytes, base + |data|, base + |data| + |chunk|)
    ensures var tail := Last(data, |magic| - 1);
            Scanning(bytes, magic, base + |data| - |tail|, tail + chunk, 0, count)
    ensures base + |data| >= |bytes| ==> |All(bytes, magic)| == count
  {
    hide Occurrences, Occurs;
    SkipToTail(bytes, magic, base, base + |data|, start);
    JoinWindow(bytes, base, data, |magic| - 1, chunk);
  }

  /** A file whose position anyone may move.  read(n) returns at least one byte unless it is at the
      end. */
  class File {
    const bytes: seq<Byte>
    var position: nat

    constructor (bytes: seq<Byte>)
      ensures this.bytes == bytes
    {
      this.bytes, position := bytes, 0;
    }

    method ReadAt(offset: nat, n: nat) returns (data: seq<Byte>)
      requires n > 0
      modifies this
      ensures |data| <= n && data == Slice(bytes, offset, offset + |data|)
      ensures data == [] ==> offset >= |bytes|
    {
      position := offset;
      data := [];
      if offset < |bytes| {
        var k: nat :| 1 <= k <= n && offset + k <= |bytes|;
        data := bytes[offset..offset + k];
      }
      position := position + |data|;
    }
  }

  /** The generator, suspended after each offset it yields. */
  class Offsets {
    const file: File
    const magic: seq<Byte>
    var overlap: seq<Byte>
    var position: nat
    var data: seq<Byte>
    var start: nat
    var count: nat

    constructor (file: File, magic: seq<Byte>)
      requires |magic| >= 2
      ensures Valid() && this.file == file && this.magic == magic && count == 0 && fresh(this)
    {
      this.file, this.magic := file, magic;
      overlap, position, data, start, count := [], 0, [], 0, 0;
    }

    /** Where the data in hand begins in the file. */
    ghost function Base(): int
      reads this
    {
      position - |overlap|
    }

    ghost predicate Valid()
      reads this
    {
      && |magic| >= 2 && |overlap| <= position && |overlap| <= |data|
      && Scanning(file.bytes, magic, Base(), data, start, count)
    }

    /** Yield the next offset, None at the end, or refuse the member for too many candidates. */
    method Next() returns (r: Result<Option<nat>, ()>)
      requires Valid()
      modifies this, file
      ensures Valid()
      ensures var all := All(file.bytes, magic);
              match r
              case Ok(Some(offset)) => old(count) < |all| && offset == all[old(count)] && count == old(count) + 1
              case Ok(None) => |all| == old(count) == count
              case Err(_) => |all| > old(count) == CANDIDATES_MAX == count
    {
      hide Occurrences, All, Find, Occurs;
      while true
        invariant Valid() && count == old(count)
        decreases |file.bytes| - Base() - |data|
      {
        SearchWindow(file.bytes, magic, Base(), Base() + |data|, start);
        var index := Find(data, magic, start);
        if index.Some? {
          if count + 1 > CANDIDATES_MAX {
            return Err(());
          }
          count := count + 1;
          start := index.value + 1;
          return Ok(Some(position - |overlap| + index.value));
        }
        var more := Refill();
        if !more {
          return Ok(None);
        }
      }
    }

    /** Replace exhausted data by its tail and the next chunk. */
    method Refill() returns (more: bool)
      requires Valid()
      requires forall j: nat | Base() + start <= j && j + |magic| <= Base() + |data| :: !Occurs(file.bytes, magic, j)
      modifies this, file
      ensures Valid() && count == old(count)
      ensures if more then Base() + |data| > old(Base() + |data|) else |All(file.bytes, magic)| == count
    {
      hide Scanning, Occurs, All;
      var next := position - |overlap| + |data|;
      var chunk := file.ReadAt(next, DECODE_CHUNK_BYTES);
      ScanOn(file.bytes, magic, Base(), data, start, count, chunk);
      if chunk == [] {
        return false;
      }
      var tail := Last(data, |magic| - 1);
      overlap, position, data, start := tail, next, tail + chunk, 0;
      more := true;
    }
  }
}
