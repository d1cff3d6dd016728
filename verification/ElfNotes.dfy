/** The two GNU build-id parsers over little-endian ELF note segments. */
module ElfNotes {
  import opened Wrappers
  import opened Bytes

  const NT_GNU_BUILD_ID: nat := 3
  const GNU: seq<Byte> := [71, 78, 85]
  const HEADER: nat := 12

  datatype Note = Note(name: seq<Byte>, desc: seq<Byte>, kind: nat)

  function Little(data: seq<Byte>, at: nat): (n: nat)
    requires at + 4 <= |data|
    ensures n < WORD
  {
    var a: nat, b: nat, c: nat, d: nat := data[at], data[at + 1], data[at + 2], data[at + 3];
    a + 0x100 * (b + 0x100 * (c + 0x100 * d))
  }

  function RStrip(name: seq<Byte>): seq<Byte> {
    if name != [] && name[|name| - 1] == 0 then RStrip(name[..|name| - 1]) else name
  }

  predicate IsBuildId(n: Note) {
    n.kind == NT_GNU_BUILD_ID && RStrip(n.name) == GNU
  }

  /** bytes.hex() */
  function Hex(bytes: seq<Byte>): string {
    if bytes == [] then "" else [HexDigit(bytes[0] / 16) as char, HexDigit(bytes[0] % 16) as char] + Hex(bytes[1..])
  }

  // ---- The reference: the notes of a segment ----

  /** The notes from an offset on, and whether the last of them fits in the segment. */
  datatype Parsed = Parsed(notes: seq<Note>, sound: bool)

  function DescStart(data: seq<Byte>, at: nat): (r: nat)
    requires at + HEADER <= |data|
    ensures r >= at + HEADER + Little(data, at)
  {
    var namesz := Little(data, at);
    at + HEADER + namesz + Padding(namesz, 4)
  }

  function DescEnd(data: seq<Byte>, at: nat): (r: nat)
    requires at + HEADER <= |data|
    ensures r >= DescStart(data, at)
  {
    DescStart(data, at) + Little(data, at + 4)
  }

  function NextNote(data: seq<Byte>, at: nat): (r: nat)
    requires at + HEADER <= |data|
    ensures r >= at + HEADER
  {
    DescEnd(data, at) + Padding(Little(data, at + 4), 4)
  }

  function NoteAt(data: seq<Byte>, at: nat): Note
    requires at + HEADER <= |data| && DescEnd(data, at) <= |data|
  {
    Note(data[at + HEADER..at + HEADER + Little(data, at)], data[DescStart(data, at)..DescEnd(data, at)], Little(data, at + 8))
  }

  function Parse(data: seq<Byte>, at: nat): Parsed
    decreases |data| - at
  {
    if at + HEADER > |data| then Parsed([], true)
    else if DescEnd(data, at) > |data| then Parsed([], false)
    else
      var rest := Parse(data, NextNote(data, at));
      Parsed([NoteAt(data, at)] + rest.notes, rest.sound)
  }

  function BuildIds(notes: seq<Note>): set<string> {
    if notes == [] then {}
    else (if IsBuildId(notes[0]) then {Hex(notes[0].desc)} else {}) + BuildIds(notes[1..])
  }

  function FirstBuildId(notes: seq<Note>): Option<string> {
    if notes == [] then None
    else if IsBuildId(notes[0]) then Some(Hex(notes[0].desc))
    else FirstBuildId(notes[1..])
  }

  /** How one note contributes. */
  lemma ParseStep(data: seq<Byte>, at: nat)
    requires at + HEADER <= |data| && DescEnd(data, at) <= |data|
    ensures var n, here, rest := NoteAt(data, at), Parse(data, at), Parse(data, NextNote(data, at));
            && here.sound == rest.sound
            && FirstBuildId(here.notes) == (if IsBuildId(n) then Some(Hex(n.desc)) else FirstBuildId(rest.notes))
            && BuildIds(here.notes) == (if IsBuildId(n) then {Hex(n.desc)} else {}) + BuildIds(rest.notes)
  {
    var rest := Parse(data, NextNote(data, at)).notes;
    assert ([NoteAt(data, at)] + rest)[1..] == rest;
  }

  /** The segment ends, or its next note does not fit. */
  lemma ParseStop(data: seq<Byte>, at: nat)
    requires at + HEADER > |data| || DescEnd(data, at) > |data|
    ensures var here := Parse(data, at);
            here.sound == (at + HEADER > |data|) && FirstBuildId(here.notes).None? && BuildIds(here.notes) == {}
  {
  }

  // ---- The two parsers ----

  /** parse_gnu_build_id: the first build ID; a note that does not fit ends the search. */
  method ParseGnuBuildId(notes: seq<Byte>) returns (r: Option<string>)
    ensures r == FirstBuildId(Parse(notes, 0).notes)
  {
    hide Parse, FirstBuildId, Little, Padding, RStrip, Hex;
    var offset := 0;
    while offset + HEADER <= |notes|
      invariant FirstBuildId(Parse(notes, 0).notes) == FirstBuildId(Parse(notes, offset).notes)
      decreases |notes| - offset
    {
      var namesz, descsz, kind := Little(notes, offset), Little(notes, offset + 4), Little(notes, offset + 8);
      var nameStart := offset + HEADER;
      var nameEnd := nameStart + namesz;
      var descStart := nameEnd + Padding(namesz, 4);
      var descEnd := descStart + descsz;
      if descEnd > |notes| {
        ParseStop(notes, offset);
        break;
      }
      ParseStep(notes, offset);
      if kind == NT_GNU_BUILD_ID && RStrip(notes[nameStart..nameEnd]) == GNU {
        return Some(Hex(notes[descStart..descEnd]));
      }
      offset := descEnd + Padding(descsz, 4);
    }
    ParseStop(notes, offset);
    r := None;
  }

  /** _gnu_build_ids_from_notes: all build IDs; a note that does not fit is refused. */
  method GnuBuildIds(data: seq<Byte>) returns (r: Option<set<string>>)
    ensures r == if Parse(data, 0).sound then Some(BuildIds(Parse(data, 0).notes)) else None
  {
    hide Parse, BuildIds, Little, Padding, RStrip, Hex;
    var found: set<string> := {};
    var offset := 0;
    while offset + HEADER <= |data|
      invariant BuildIds(Parse(data, 0).notes) == found + BuildIds(Parse(data, offset).notes)
      invariant Parse(data, 0).sound == Parse(data, offset).sound
      decreases |data| - offset
    {
      var namesz, descsz, kind := Little(data, offset), Little(data, offset + 4), Little(data, offset + 8);
      var nameStart := offset + HEADER;
      var nameEnd := nameStart + namesz;
      var descStart := nameEnd + Padding(namesz, 4);
      var descEnd := descStart + descsz;
      if descEnd > |data| {
        ParseStop(data, offset);
        return None;
      }
      ParseStep(data, offset);
      if kind == NT_GNU_BUILD_ID && RStrip(data[nameStart..nameEnd]) == GNU {
        found := found + {Hex(data[descStart..descEnd])};
      }
      offset := descEnd + Padding(descsz, 4);
    }
    ParseStop(data, offset);
    r := Some(found);
  }

  /** On any list of notes the first build ID is one of the set, and is missing exactly when the
      set is empty: where the strict parser accepts, the two agree. */
  lemma {:induction false} ParsersAgree(notes: seq<Note>)
    ensures FirstBuildId(notes).None? <==> BuildIds(notes) == {}
    ensures FirstBuildId(notes).Some? ==> FirstBuildId(notes).value in BuildIds(notes)
  {
    if notes != [] {
      ParsersAgree(notes[1..]);
    }
  }

  lemma {:induction false} BuildIdsAre(notes: seq<Note>, id: string)
    ensures id in BuildIds(notes) <==> exists n | n in notes :: IsBuildId(n) && Hex(n.desc) == id
  {
    if notes != [] {
      BuildIdsAre(notes[1..], id);
      assert notes == [notes[0]] + notes[1..];
    }
  }

  // ---- Encoding ----

  function Word(n: nat): (r: seq<Byte>)
    requires n < WORD
    ensures |r| == 4 && Little(r, 0) == n
  {
    var b, c, d := n / 0x100, n / 0x100 / 0x100, n / 0x100 / 0x100 / 0x100;
    [n % 0x100, b % 0x100, c % 0x100, d]
  }

  predicate Encodable(n: Note) {
    |n.name| < WORD && |n.desc| < WORD && n.kind < WORD
  }

  function EncodeNote(n: Note): seq<Byte>
    requires Encodable(n)
  {
    Word(|n.name|) + Word(|n.desc|) + Word(n.kind) + n.name + Zeros(Padding(|n.name|, 4)) + n.desc + Zeros(Padding(|n.desc|, 4))
  }

  function EncodeNotes(notes: seq<Note>): seq<Byte>
    requires forall n | n in notes :: Encodable(n)
  {
    if notes == [] then [] else EncodeNote(notes[0]) + EncodeNotes(notes[1..])
  }

  lemma WordAt(data: seq<Byte>, at: nat, n: nat)
    requires n < WORD && at + 4 <= |data| && data[at..at + 4] == Word(n)
    ensures Little(data, at) == n
  {
    var word := data[at..at + 4];
    assert data[at] == word[0] && data[at + 1] == word[1] && data[at + 2] == word[2] && data[at + 3] == word[3];
  }

  /** A note encoded at some place is read back from there. */
  lemma ReadBack(before: seq<Byte>, n: Note, after: seq<Byte>)
    requires Encodable(n)
    ensures var data, at := before + EncodeNote(n) + after, |before|;
            && at + HEADER <= |data| && DescEnd(data, at) <= |data|
            && NoteAt(data, at) == n && NextNote(data, at) == at + |EncodeNote(n)|
  {
    hide Little, Word, Zeros, Padding;
    var data, at := before + EncodeNote(n) + after, |before|;
    assert data[at..at + 4] == Word(|n.name|);
    assert data[at + 4..at + 8] == Word(|n.desc|);
    assert data[at + 8..at + 12] == Word(n.kind);
    WordAt(data, at, |n.name|);
    WordAt(data, at + 4, |n.desc|);
    WordAt(data, at + 8, n.kind);
    assert data[at + HEADER..at + HEADER + |n.name|] == n.name;
    assert data[DescStart(data, at)..DescEnd(data, at)] == n.desc;
  }

  lemma {:induction false} ParseEncoded(before: seq<Byte>, notes: seq<Note>)
    requires forall n | n in notes :: Encodable(n)
    ensures Parse(before + EncodeNotes(notes), |before|) == Parsed(notes, true)
    decreases |notes|
  {
    hide EncodeNote, NoteAt, NextNote, DescEnd, Little;
    if notes == [] {
      assert before + EncodeNotes(notes) == before;
    } else {
      var n, rest := notes[0], notes[1..];
      ReadBack(before, n, EncodeNotes(rest));
      assert before + EncodeNotes(notes) == before + EncodeNote(n) + EncodeNotes(rest);
      ParseEncoded(before + EncodeNote(n), rest);
      assert [n] + rest == notes;
    }
  }

  /** Both parsers invert the encoding. */
  lemma EncodingRoundTrip(notes: seq<Note>)
    requires forall n | n in notes :: Encodable(n)
    ensures Parse(EncodeNotes(notes), 0) == Parsed(notes, true)
  {
    ParseEncoded([], notes);
    assert [] + EncodeNotes(notes) == EncodeNotes(notes);
  }

  /** The two parsers side by side on one segment, and on an encoded list of notes. */
  method BothParsers(data: seq<Byte>, ghost notes: seq<Note>) returns (first: Option<string>, all: Option<set<string>>)
    ensures all.Some? ==> (first.None? <==> all.value == {}) && (first.Some? ==> first.value in all.value)
    ensures (forall n | n in notes :: Encodable(n)) && data == EncodeNotes(notes) ==>
              first == FirstBuildId(notes) && all == Some(BuildIds(notes))
  {
    first := ParseGnuBuildId(data);
    all := GnuBuildIds(data);
    ParsersAgree(Parse(data, 0).notes);
    if (forall n | n in notes :: Encodable(n)) && data == EncodeNotes(notes) {
      EncodingRoundTrip(notes);
    }
  }
}
