/** The "Linux version " banner of a ppc64le boot member, found chunk by chunk. */
module BannerScan {
  import opened Wrappers
  import opened Bytes
  import opened Limits

  /** "Linux version " */
  const MARKER: seq<Byte> := [76, 105, 110, 117, 120, 32, 118, 101, 114, 115, 105, 111, 110, 32]
  const MARKER_LENGTH: nat := 14
  const TOKEN_MAX: nat := 64
  const OVERLAP: nat := MARKER_LENGTH + TOKEN_MAX + 1
  const SCAN_CHUNK_BYTES: nat := 16 * 1024 * 1024

  predicate Alphanumeric(b: Byte) {
    48 <= b <= 57 || 65 <= b <= 90 || 97 <= b <= 122
  }

  /** [A-Za-z0-9._+-] */
  predicate TokenByte(b: Byte) {
    Alphanumeric(b) || b == 46 || b == 95 || b == 43 || b == 45
  }

  /** Space, tab, carriage return, newline or NUL. */
  predicate Terminator(b: Byte) {
    b == 32 || b == 9 || b == 13 || b == 10 || b == 0
  }

  predicate MarkerAt(data: seq<Byte>, i: nat) {
    i + MARKER_LENGTH <= |data| && forall p | i <= p < i + MARKER_LENGTH :: data[p] == MARKER[p - i]
  }

  /** A release of n bytes stands at i. */
  predicate TokenAt(data: seq<Byte>, i: nat, n: nat) {
    1 <= n <= TOKEN_MAX && i + n <= |data| && Alphanumeric(data[i]) && forall p | i <= p < i + n :: TokenByte(data[p])
  }

  /** A complete banner with a release of n bytes starts at i. */
  predicate BannerAt(data: seq<Byte>, i: nat, n: nat) {
    && i + MARKER_LENGTH + n < |data|
    && MarkerAt(data, i)
    && TokenAt(data, i + MARKER_LENGTH, n)
    && Terminator(data[i + MARKER_LENGTH + n])
  }

  /** The length of the run of token bytes from i on. */
  function Run(data: seq<Byte>, i: nat): (n: nat)
    requires i <= |data|
    ensures i + n <= |data| && (forall p | i <= p < i + n :: TokenByte(data[p]))
    ensures i + n < |data| ==> !TokenByte(data[i + n])
    decreases |data| - i
  {
    if i == |data| || !TokenByte(data[i]) then 0 else 1 + Run(data, i + 1)
  }

  /** The release length of a banner starting at i: the regular expression tried at one place. */
  function Attempt(data: seq<Byte>, i: nat): (r: Option<nat>)
    ensures r.Some? ==> r.value <= TOKEN_MAX && i + MARKER_LENGTH + r.value < |data|
  {
    if !MarkerAt(data, i) then None
    else
      var n := Run(data, i + MARKER_LENGTH);
      if BannerAt(data, i, n) then Some(n) else None
  }

  /** The start of the leftmost complete banner at or after a position, |data| if there is none. */
  function Search(data: seq<Byte>, from: nat): (r: nat)
    requires from <= |data|
    ensures from <= r <= |data| && (r < |data| ==> Attempt(data, r).Some?)
    ensures forall i | from <= i < r :: Attempt(data, i).None?
    decreases |data| - from
  {
    if from == |data| || Attempt(data, from).Some? then from else Search(data, from + 1)
  }

  /** _scan_linux_release: the release of the leftmost complete banner. */
  function Release(data: seq<Byte>): Option<seq<Byte>> {
    var b := Search(data, 0);
    if b == |data| then None
    else Some(data[b + MARKER_LENGTH..b + MARKER_LENGTH + Attempt(data, b).value])
  }

  /** A banner has one release: the run of token bytes its terminator ends. */
  lemma AttemptIff(data: seq<Byte>, i: nat, n: nat)
    ensures BannerAt(data, i, n) <==> Attempt(data, i) == Some(n)
  {
  }

  lemma ReleaseMeans(data: seq<Byte>)
    ensures match Release(data)
            case Some(t) =>
              exists i: nat, n: nat ::
                && BannerAt(data, i, n) && t == data[i + MARKER_LENGTH..i + MARKER_LENGTH + n] && TokenAt(t, 0, |t|)
                && forall j: nat, m: nat | BannerAt(data, j, m) :: i <= j
            case None => forall i: nat, n: nat :: !BannerAt(data, i, n)
  {
    forall i: nat, n: nat ensures BannerAt(data, i, n) <==> Attempt(data, i) == Some(n) {
      AttemptIff(data, i, n);
    }
    var b := Search(data, 0);
    if b < |data| {
      var n := Attempt(data, b).value;
      assert BannerAt(data, b, n);
    }
  }

  lemma BannerShift(data: seq<Byte>, base: nat, end: nat, i: nat, n: nat)
    requires base <= end <= |data|
    ensures BannerAt(data[base..end], i, n) <==> BannerAt(data, base + i, n) && base + i + MARKER_LENGTH + n < end
  {
    var part := data[base..end];
    assert forall p | 0 <= p < |part| :: part[p] == data[base + p];
    assert forall p | base <= p < end :: data[p] == part[p - base];
  }

  lemma AttemptShift(data: seq<Byte>, base: nat, end: nat, i: nat)
    requires base <= end <= |data|
    ensures var whole := Attempt(data, base + i);
            Attempt(data[base..end], i) ==
              if whole.Some? && base + i + MARKER_LENGTH + whole.value < end then whole else None
  {
    var part, whole := Attempt(data[base..end], i), Attempt(data, base + i);
    if part.Some? {
      AttemptIff(data[base..end], i, part.value);
      BannerShift(data, base, end, i, part.value);
      AttemptIff(data, base + i, part.value);
    } else if whole.Some? {
      AttemptIff(data[base..end], i, whole.value);
      BannerShift(data, base, end, i, whole.value);
      AttemptIff(data, base + i, whole.value);
    }
  }

  /** Two banners never cross: the marker of the later one holds a space no release can contain. */
  lemma BannersNest(data: seq<Byte>, i: nat, j: nat)
    requires Attempt(data, i).Some? && Attempt(data, j).Some? && i < j
    ensures i + Attempt(data, i).value < j + Attempt(data, j).value
  {
    assert data[j + 13] == MARKER[13] == 32;
  }

  /** What a prefix settles, the whole data cannot unsettle. */
  lemma PrefixSettles(data: seq<Byte>, end: nat)
    requires end <= |data| && Release(data[..end]).Some?
    ensures Release(data) == Release(data[..end])
  {
    hide Attempt;
    assert data[0..end] == data[..end];
    var b, w := Search(data[..end], 0), Search(data, 0);
    AttemptShift(data, 0, end, b);
    AttemptShift(data, 0, end, w);
    if w < b {
      BannersNest(data, w, b);
    }
    assert w == b;
    var from, n := b + MARKER_LENGTH, Attempt(data, b).value;
    assert data[..end][from..from + n] == data[from..from + n];
  }

  /** A window that overlaps a banner-free prefix far enough finds what the longer prefix holds. */
  lemma WindowSuffices(data: seq<Byte>, base: nat, known: nat)
    requires base <= known <= |data| && known - base == Min(OVERLAP, known)
    requires Release(data[..known]).None?
    ensures Release(data[base..]) == Release(data)
  {
    hide Attempt;
    assert data[0..known] == data[..known] && data[base..|data|] == data[base..];
    var w, b := Search(data[base..], 0), Search(data, 0);
    if b < |data| {
      AttemptShift(data, 0, known, b);
      assert base <= b;
      AttemptShift(data, base, |data|, b - base);
    }
    AttemptShift(data, base, |data|, w);
    assert b == if w == |data[base..]| then |data| else base + w;
    if b < |data| {
      var from, n := b + MARKER_LENGTH, Attempt(data, b).value;
      assert data[base..][from - base..from - base + n] == data[from..from + n];
    }
  }

  /** What the search knows after the first `end` bytes, and the tail it carries on. */
  function Known(member: seq<Byte>, end: nat): Option<seq<Byte>>
    requires end <= |member|
  {
    Release(member[..end])
  }

  function Tail(member: seq<Byte>, end: nat): seq<Byte>
    requires end <= |member|
  {
    member[end - Min(OVERLAP, end)..end]
  }

  lemma ScanStart(member: seq<Byte>)
    ensures Known(member, 0).None? && Tail(member, 0) == []
  {
    assert member[..0] == [];
  }

  /** One more chunk behind the carried tail. */
  lemma ScanChunk(member: seq<Byte>, scanned: nat, end: nat)
    requires scanned <= end <= |member| && Known(member, scanned).None?
    ensures Release(Tail(member, scanned) + member[scanned..end]) == Known(member, end)
    ensures Last(Tail(member, scanned) + member[scanned..end], OVERLAP) == Tail(member, end)
  {
    hide Release;
    var seen, base := member[..end], scanned - Min(OVERLAP, scanned);
    assert seen[..scanned] == member[..scanned];
    assert seen[base..] == Tail(member, scanned) + member[scanned..end];
    WindowSuffices(seen, base, scanned);
  }

  /** The end of the member, with the explicit terminator behind the carried tail. */
  lemma ScanEnd(member: seq<Byte>)
    requires Known(member, |member|).None?
    ensures Release(Tail(member, |member|) + [0]) == Release(member + [0])
  {
    hide Release;
    var whole := member + [0];
    assert whole[..|member|] == member[..|member|] && whole[|member|..|whole|] == [0] && whole[..|whole|] == whole;
    assert Tail(whole, |member|) == Tail(member, |member|);
    ScanChunk(whole, |member|, |whole|);
  }

  /** A banner found in a prefix of the member is the banner of the member. */
  lemma ScanFound(member: seq<Byte>, end: nat, stop: nat)
    requires end <= stop && end <= |member| && Known(member, end).Some?
    ensures Release(member + [0]) == Known(member, end)
    ensures stop <= |member| ==> Known(member, stop) == Known(member, end)
  {
    hide Release;
    assert (member + [0])[..end] == member[..end];
    PrefixSettles(member + [0], end);
    if stop <= |member| {
      assert member[..stop][..end] == member[..end];
      PrefixSettles(member[..stop], end);
    }
  }

  /** The data ends inside a banner: a marker and a release that nothing terminates. */
  ghost predicate EndsInBanner(data: seq<Byte>) {
    exists i: nat :: EndBannerAt(data, i)
  }

  predicate EndBannerAt(data: seq<Byte>, i: nat) {
    MarkerAt(data, i) && TokenAt(data, i + MARKER_LENGTH, |data| - i - MARKER_LENGTH)
  }

  /** The final NUL completes exactly the banner the data ends in. */
  lemma EndBannerCompleted(data: seq<Byte>, i: nat, n: nat)
    requires i + MARKER_LENGTH + n == |data|
    ensures BannerAt(data + [0], i, n) <==> EndBannerAt(data, i)
  {
    var closed := data + [0];
    assert forall p | 0 <= p < |data| :: closed[p] == data[p];
  }

  /** The final NUL makes a difference exactly to data that holds no complete banner and ends in
      one. */
  lemma EndMatters(data: seq<Byte>)
    ensures Release(data + [0]) == Release(data) <==> Release(data).Some? || !EndsInBanner(data)
  {
    hide BannerAt, EndBannerAt;
    var closed := data + [0];
    assert closed[..|data|] == data && closed[0..|data|] == data;
    if Release(data).Some? {
      PrefixSettles(closed, |data|);
    } else {
      var b := Search(closed, 0);
      if b < |closed| {
        var n := Attempt(closed, b).value;
        AttemptIff(closed, b, n);
        AttemptShift(closed, 0, |data|, b);
        EndBannerCompleted(data, b, n);
      }
      forall i: nat | EndBannerAt(data, i) ensures Release(closed).Some? {
        assert i + MARKER_LENGTH <= |data| by { assert MarkerAt(data, i) by { EndMarker(data, i); } }
        EndBannerCompleted(data, i, |data| - i - MARKER_LENGTH);
        AttemptIff(closed, i, |data| - i - MARKER_LENGTH);
      }
    }
  }

  lemma EndMarker(data: seq<Byte>, i: nat)
    requires EndBannerAt(data, i)
    ensures MarkerAt(data, i)
  {
  }

  lemma AtBound(member: seq<Byte>)
    ensures Known(member, |member|) == Release(member + [0]) <==> Release(member).Some? || !EndsInBanner(member)
  {
    hide Release, EndsInBanner;
    assert member[..|member|] == member;
    EndMatters(member);
  }

  /** _boot_release for ppc64le.  The member is read in chunks of any nonempty size up to the
      limit, and yet below the byte bound the answer is that of one search over the whole member
      and a final NUL.  A member at or past the bound is searched up to the chunk that reaches it,
      without the final NUL: at the bound the answer is the same exactly for a member that holds a
      complete banner or does not end in one. */
  method BootRelease(member: seq<Byte>) returns (r: Option<seq<Byte>>, ghost stop: nat)
    ensures |member| < MEMBER_MAX_BYTES ==> r == Release(member + [0])
    ensures |member| >= MEMBER_MAX_BYTES ==>
              MEMBER_MAX_BYTES <= stop <= |member| && stop < MEMBER_MAX_BYTES + SCAN_CHUNK_BYTES && r == Known(member, stop)
    ensures |member| == MEMBER_MAX_BYTES ==>
              (r == Release(member + [0]) <==> Release(member).Some? || !EndsInBanner(member))
  {
    hide Release, Known, Tail, Last, EndsInBanner;
    AtBound(member);
    var tail, scanned := [], 0;
    ScanStart(member);
    while scanned < MEMBER_MAX_BYTES
      invariant scanned <= |member| && scanned < MEMBER_MAX_BYTES + SCAN_CHUNK_BYTES
      invariant tail == Tail(member, scanned) && Known(member, scanned).None?
      decreases |member| - scanned
    {
      if scanned == |member| {
        ScanEnd(member);
        return Release(tail + [0]), 0;
      }
      var n: nat :| 1 <= n <= SCAN_CHUNK_BYTES && scanned + n <= |member|;
      var data := tail + member[scanned..scanned + n];
      ScanChunk(member, scanned, scanned + n);
      r := Release(data);
      if r.Some? {
        stop := Max(scanned + n, MEMBER_MAX_BYTES);
        ScanFound(member, scanned + n, stop);
        return r, stop;
      }
      tail := Last(data, OVERLAP);
      scanned := scanned + n;
    }
    r, stop := None, scanned;
  }

  /** Zeros, then a marker and a release of one byte that only the end of the data terminates. */
  function Unterminated(pad: nat): seq<Byte> {
    Zeros(pad) + MARKER + [65]
  }

  lemma UnterminatedMarker(pad: nat, i: nat)
    ensures MarkerAt(Unterminated(pad), i) <==> i == pad
    ensures MarkerAt(Unterminated(pad) + [0], i) <==> i == pad
  {
    var data := Unterminated(pad);
    assert |data| == pad + MARKER_LENGTH + 1;
    assert forall p | 0 <= p < pad :: data[p] == 0;
    assert forall p | pad <= p < pad + MARKER_LENGTH :: data[p] == MARKER[p - pad];
    assert data[pad + MARKER_LENGTH] == 65;
    assert forall p | 0 <= p < |data| :: (data + [0])[p] == data[p];
    if MarkerAt(data, i) || MarkerAt(data + [0], i) {
      assert data[i] == MARKER[0] == 76;
    }
  }

  lemma UnterminatedRelease(pad: nat)
    ensures EndsInBanner(Unterminated(pad)) && Release(Unterminated(pad)).None?
    ensures Release(Unterminated(pad) + [0]) == Some([65])
  {
    hide MarkerAt, Release;
    var data := Unterminated(pad);
    var closed, from := data + [0], pad + MARKER_LENGTH;
    assert |data| == from + 1 && data[from] == closed[from] == 65 && closed[from + 1] == 0 && closed[from..from + 1] == [65];
    UnterminatedMarker(pad, pad);
    assert EndBannerAt(data, pad) && BannerAt(closed, pad, 1);
    forall i: nat, n: nat ensures !BannerAt(data, i, n) && (BannerAt(closed, i, n) ==> i == pad && n == 1) {
      UnterminatedMarker(pad, i);
    }
    ReleaseMeans(data);
    ReleaseMeans(closed);
  }

  lemma UnterminatedPart(pad: nat, stop: nat)
    ensures stop <= |Unterminated(pad)| ==> Known(Unterminated(pad), stop).None?
  {
    hide Release;
    UnterminatedRelease(pad);
    if stop <= |Unterminated(pad)| && Known(Unterminated(pad), stop).Some? {
      PrefixSettles(Unterminated(pad), stop);
    }
  }

  /** Such a member loses its release at the byte bound. */
  method UnterminatedMember(pad: nat) returns (r: Option<seq<Byte>>)
    ensures r == if |Unterminated(pad)| < MEMBER_MAX_BYTES then Some([65]) else None
  {
    hide Release, Unterminated, EndsInBanner;
    UnterminatedRelease(pad);
    ghost var stop;
    r, stop := BootRelease(Unterminated(pad));
    UnterminatedPart(pad, stop);
  }
}
