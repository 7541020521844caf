/** ELF note segments: records of a header, a padded name and a padded descriptor. */
module Notes {
  import opened Words
  import opened Bits
  import opened Bytes

  datatype Note = Note(name: seq<U8>, noteType: U32, desc: seq<U8>)

  /** The next multiple of 4. */
  function Aligned(n: nat): nat {
    n + 3 - (n + 3) % 4
  }

  lemma AlignedBounds(n: nat)
    ensures n <= Aligned(n) < n + 4
  {
  }

  /** From a multiple of 4 on, aligning is the same as from 0. */
  lemma AlignedShift(base: nat, n: nat)
    requires Aligned(base) == base
    ensures Aligned(base + n) == base + Aligned(n)
  {
    var q, r := (n + 3) / 4, (n + 3) % 4;
    assert base % 4 == 0 by {
      QuotientUnique(base + 3, 4, (base + 3) / 4, 3);
    }
    QuotientUnique(base + n + 3, 4, base / 4 + q, r);
  }

  lemma AlignedTwice(n: nat)
    ensures Aligned(Aligned(n)) == Aligned(n)
  {
    var q := (n + 3) / 4;
    assert Aligned(n) == 4 * q;
    QuotientUnique(4 * q + 3, 4, q, 3);
  }

  /** `align4`: rounds up with `(n + 3) & !3`, or fails on overflow. */
  function Align4(n: U64): Option<U64> {
    match CheckedAdd(n, 3)
    case None => None
    case Some(m) => Some(m - m % 4)
  }

  lemma Align4IsMask(n: U64)
    requires n + 3 < TWO64
    ensures Align4(n) == Some(BitAnd(n + 3, MAX_U64 - 3)) == Some(Aligned(n))
  {
    Pow2Values();
    assert Pow2(3) == 2 * Pow2(2);
    AndHighMask(n + 3, 64, 2);
  }

  /** The bytes before the first NUL, or all of them. */
  function Trimmed(s: seq<U8>): seq<U8> {
    if s == [] || s[0] == 0 then [] else [s[0]] + Trimmed(s[1..])
  }

  /** One record: its note, if its name is valid UTF-8, and where the next one starts. */
  datatype Record = Record(note: Option<Note>, next: U64)

  function NoteOf(name: seq<U8>, noteType: U32, desc: seq<U8>): Option<Note> {
    if IsUtf8(Trimmed(name)) then Some(Note(Trimmed(name), noteType, desc)) else None
  }

  /** The record at `off`; none when any step runs past the buffer or overflows. */
  function RecordAt(data: seq<U8>, off: U64): Option<Record> {
    if ReadU32(data, off).None? || ReadU32(data, off + 4).None? || ReadU32(data, off + 8).None? then None
    else if off + 12 > MAX_U64 then None
    else
      var nameSize, descSize, noteType :=
        ReadU32(data, off).value, ReadU32(data, off + 4).value, ReadU32(data, off + 8).value;
      var nameEnd := CheckedAdd(off + 12, nameSize);
      if nameEnd.None? || Slice(data, off + 12, nameEnd.value).None? then None
      else
        var descStart := Align4(nameEnd.value);
        if descStart.None? || CheckedAdd(descStart.value, descSize).None? then None
        else
          var descEnd := CheckedAdd(descStart.value, descSize).value;
          if Slice(data, descStart.value, descEnd).None? || Align4(descEnd).None? then None
          else
            Some(Record(
              NoteOf(Slice(data, off + 12, nameEnd.value).value, noteType,
                     Slice(data, descStart.value, descEnd).value),
              Align4(descEnd).value))
  }

  /** The record whose bytes all lie in the buffer, in unbounded arithmetic. */
  function IntactRecord(data: seq<U8>, off: U64): Option<Record>
    requires |data| <= MAX_LENGTH && off <= |data| + 3
  {
    if off + 12 > |data| then None
    else
      var nameEnd := off + 12 + ReadU32(data, off).value;
      var descStart := Aligned(nameEnd);
      var descEnd := descStart + ReadU32(data, off + 4).value;
      AlignedBounds(nameEnd);
      AlignedBounds(descEnd);
      if descEnd > |data| then None
      else
        Some(Record(NoteOf(data[off + 12..nameEnd], ReadU32(data, off + 8).value, data[descStart..descEnd]),
                    Aligned(descEnd)))
  }

  /** In a buffer that can exist nothing overflows: a record is there exactly when the buffer has all its bytes. */
  lemma RecordExactly(data: seq<U8>, off: U64)
    requires |data| <= MAX_LENGTH && off <= |data| + 3
    ensures RecordAt(data, off) == IntactRecord(data, off)
  {
    hide FromLe;
    if off + 12 <= |data| {
      AlignedBounds(off + 12 + ReadU32(data, off).value);
      AlignedBounds(Aligned(off + 12 + ReadU32(data, off).value) + ReadU32(data, off + 4).value);
    }
  }

  lemma RecordAdvances(data: seq<U8>, off: U64)
    requires |data| <= MAX_LENGTH && off <= |data| + 3 && RecordAt(data, off).Some?
    ensures off + 12 <= |data| && off + 12 <= RecordAt(data, off).value.next <= |data| + 3
  {
    hide Aligned, FromLe;
    RecordExactly(data, off);
    AlignedBounds(off + 12 + ReadU32(data, off).value);
    AlignedBounds(Aligned(off + 12 + ReadU32(data, off).value) + ReadU32(data, off + 4).value);
  }

  function Parse(data: seq<U8>, off: U64): seq<Note>
    requires |data| <= MAX_LENGTH && off <= |data| + 3
    decreases |data| + 4 - off
  {
    match RecordAt(data, off)
    case None => []
    case Some(record) =>
      RecordAdvances(data, off);
      (if record.note.Some? then [record.note.value] else []) + Parse(data, record.next)
  }

  lemma ParseUnfolds(data: seq<U8>, off: U64)
    requires |data| <= MAX_LENGTH && off <= |data| + 3
    ensures match RecordAt(data, off)
            case None => Parse(data, off) == []
            case Some(record) =>
              && record.next <= |data| + 3
              && Parse(data, off)
                 == (if record.note.Some? then [record.note.value] else []) + Parse(data, record.next)
  {
    hide RecordAt;
    if RecordAt(data, off).Some? {
      RecordAdvances(data, off);
    }
  }

  method WalkNoteSegment(data: seq<U8>) returns (notes: seq<Note>)
    requires |data| <= MAX_LENGTH
    ensures notes == Parse(data, 0)
  {
    hide RecordAt, FromLe, Parse;
    notes := [];
    var off: U64 := 0;
    while off + 12 <= |data|
      invariant off <= |data| + 3
      invariant notes + Parse(data, off) == Parse(data, 0)
      decreases |data| + 4 - off
    {
      var record := RecordAt(data, off);
      if record.None? {
        break;
      }
      RecordAdvances(data, off);
      ParseUnfolds(data, off);
      if record.value.note.Some? {
        notes := notes + [record.value.note.value];
      }
      off := record.value.next;
    }
    ParseUnfolds(data, off);
    if RecordAt(data, off).Some? {
      RecordAdvances(data, off);
    }
  }

  // ----- Encoding notes, and parsing them back -----

  function Zeros(n: nat): (s: seq<U8>)
    ensures |s| == n
  {
    seq(n, _ => 0)
  }

  /** Zero bytes up to the next multiple of 4. */
  function Padded(s: seq<U8>): (r: seq<U8>)
    ensures |r| == Aligned(|s|)
  {
    AlignedBounds(|s|);
    s + Zeros(Aligned(|s|) - |s|)
  }

  /** A record as it is written: its name field, whatever bytes it has, its type and its descriptor. */
  datatype Raw = Raw(name: seq<U8>, noteType: U32, desc: seq<U8>)

  predicate Writable(r: Raw) {
    |r.name| < 0x1_0000_0000 && |r.desc| < 0x1_0000_0000
  }

  function EncodeHeader(r: Raw): (s: seq<U8>)
    ensures |s| == 12
  {
    ToLe(|r.name|, 4) + ToLe(|r.desc|, 4) + ToLe(r.noteType, 4)
  }

  /** A record: sizes and type, the name and the descriptor, each padded to 4 bytes. */
  function EncodeRecord(r: Raw): (s: seq<U8>)
    ensures |s| == 12 + Aligned(|r.name|) + Aligned(|r.desc|)
  {
    EncodeHeader(r) + Padded(r.name) + Padded(r.desc)
  }

  function EncodeRecords(records: seq<Raw>): seq<U8> {
    if records == [] then [] else EncodeRecord(records[0]) + EncodeRecords(records[1..])
  }

  /** The name is the bytes before the first NUL, or all of them. */
  lemma {:induction false} TrimmedExactly(s: seq<U8>, k: nat)
    requires k <= |s| && (forall i :: 0 <= i < k ==> s[i] != 0) && (k < |s| ==> s[k] == 0)
    ensures Trimmed(s) == s[..k]
  {
    if k > 0 {
      TrimmedExactly(s[1..], k - 1);
      assert s[..k] == [s[0]] + s[1..][..k - 1];
    }
  }

  /** Where the parts of a record lie in it. */
  lemma RecordParts(r: Raw)
    ensures var e := EncodeRecord(r);
            var descStart := 12 + Aligned(|r.name|);
            && |r.name| <= Aligned(|r.name|) && descStart + |r.desc| <= |e|
            && e[0..4] == ToLe(|r.name|, 4)
            && e[4..8] == ToLe(|r.desc|, 4)
            && e[8..12] == ToLe(r.noteType, 4)
            && e[12..12 + |r.name|] == r.name
            && e[descStart..descStart + |r.desc|] == r.desc
  {
    hide Aligned, ToLe;
    AlignedBounds(|r.name|);
    AlignedBounds(|r.desc|);
  }

  lemma HeaderReadsBack(data: seq<U8>, off: nat, r: Raw)
    requires Writable(r) && off + |EncodeRecord(r)| <= |data|
    requires data[off..off + |EncodeRecord(r)|] == EncodeRecord(r)
    ensures ReadU32(data, off) == Some(|r.name|)
    ensures ReadU32(data, off + 4) == Some(|r.desc|)
    ensures ReadU32(data, off + 8) == Some(r.noteType)
  {
    hide Aligned, EncodeRecord, ToLe, FromLe;
    var e := EncodeRecord(r);
    RecordParts(r);
    SubSlice(data, off, e, 0, 4);
    SubSlice(data, off, e, 4, 8);
    SubSlice(data, off, e, 8, 12);
    Pow256Values();
    LeRoundTrip(|r.name|, 4);
    LeRoundTrip(|r.desc|, 4);
    LeRoundTrip(r.noteType, 4);
  }

  lemma RecordReadsBack(data: seq<U8>, off: U64, r: Raw)
    requires |data| <= MAX_LENGTH && Writable(r) && Aligned(off) == off
    requires off + |EncodeRecord(r)| <= |data| && data[off..off + |EncodeRecord(r)|] == EncodeRecord(r)
    ensures RecordAt(data, off) == Some(Record(NoteOf(r.name, r.noteType, r.desc), off + |EncodeRecord(r)|))
    ensures Aligned(off + |EncodeRecord(r)|) == off + |EncodeRecord(r)|
  {
    hide Aligned, EncodeRecord, ToLe, FromLe, RecordAt, NoteOf;
    var e := EncodeRecord(r);
    HeaderReadsBack(data, off, r);
    RecordParts(r);
    RecordExactly(data, off);
    var nameEnd := off + 12 + |r.name|;
    var descStart := off + 12 + Aligned(|r.name|);
    RecordAligned(off, |r.name|, |r.desc|);
    SubSlice(data, off, e, 12, 12 + |r.name|);
    SubSlice(data, off, e, descStart - off, descStart - off + |r.desc|);
  }

  lemma RecordAligned(off: nat, nameSize: nat, descSize: nat)
    requires Aligned(off) == off
    ensures var descStart := off + 12 + Aligned(nameSize);
            && Aligned(off + 12 + nameSize) == descStart
            && Aligned(descStart + descSize) == descStart + Aligned(descSize)
            && Aligned(descStart + Aligned(descSize)) == descStart + Aligned(descSize)
  {
    assert Aligned(12) == 12;
    hide Aligned;
    AlignedShift(off, 12);
    AlignedShift(off + 12, nameSize);
    AlignedTwice(nameSize);
    AlignedShift(off + 12, Aligned(nameSize));
    var descStart := off + 12 + Aligned(nameSize);
    AlignedShift(descStart, descSize);
    AlignedTwice(descSize);
    AlignedShift(descStart, Aligned(descSize));
  }

  /** The notes of records: those whose name, up to its first NUL, is valid UTF-8. */
  function NotesOf(records: seq<Raw>): seq<Note> {
    if records == [] then []
    else
      (if IsUtf8(Trimmed(records[0].name)) then [Note(Trimmed(records[0].name), records[0].noteType, records[0].desc)]
       else [])
      + NotesOf(records[1..])
  }

  /**
   * Encoding any records and walking the segment gives their notes: each name up to its first NUL, and none for a
   * name that is not UTF-8, which costs no other record.
   */
  lemma {:induction false} RecordsRoundTrip(before: seq<U8>, records: seq<Raw>)
    requires Aligned(|before|) == |before| && |before + EncodeRecords(records)| <= MAX_LENGTH
    requires forall i :: 0 <= i < |records| ==> Writable(records[i])
    ensures Parse(before + EncodeRecords(records), |before|) == NotesOf(records)
    decreases |records|
  {
    hide Aligned, EncodeRecord, RecordAt, Writable, IsUtf8, Trimmed;
    if records == [] {
      RecordExactly(before, |before|);
      assert before + [] == before;
    } else {
      var first, rest := EncodeRecord(records[0]), records[1..];
      var data := before + EncodeRecords(records);
      assert data == before + first + EncodeRecords(rest);
      MiddleSlice(before, first, EncodeRecords(rest));
      RecordReadsBack(data, |before|, records[0]);
      assert forall i :: 0 <= i < |rest| ==> rest[i] == records[i + 1];
      RecordsRoundTrip(before + first, rest);
    }
  }

  /** A note whose record can be written: sizes in 32 bits, a NUL-free UTF-8 name. */
  predicate Encodable(n: Note) {
    && |n.name| + 1 < 0x1_0000_0000
    && |n.desc| < 0x1_0000_0000
    && 0 !in n.name
    && IsUtf8(n.name)
  }

  /** Notes as they are usually written, with NUL-terminated names. */
  function Terminated(notes: seq<Note>): (records: seq<Raw>)
    ensures |records| == |notes|
    ensures forall i :: 0 <= i < |records| ==>
              records[i] == Raw(notes[i].name + [0], notes[i].noteType, notes[i].desc)
  {
    seq(|notes|, i requires 0 <= i < |notes| => Raw(notes[i].name + [0], notes[i].noteType, notes[i].desc))
  }

  function EncodeNotes(notes: seq<Note>): seq<U8> {
    EncodeRecords(Terminated(notes))
  }

  lemma {:induction false} NotesOfTerminated(notes: seq<Note>)
    requires forall i :: 0 <= i < |notes| ==> Encodable(notes[i])
    ensures NotesOf(Terminated(notes)) == notes
    decreases |notes|
  {
    hide IsUtf8, Trimmed;
    if notes != [] {
      var n, rest := notes[0], notes[1..];
      assert Encodable(n);
      assert forall i :: 0 <= i < |rest| ==> rest[i] == notes[i + 1];
      TrimmedExactly(n.name + [0], |n.name|);
      NotesOfTerminated(rest);
      assert Terminated(notes)[1..] == Terminated(rest);
    }
  }

  /** Encoding any list of notes and walking the segment gives the list back. */
  lemma NotesRoundTrip(before: seq<U8>, notes: seq<Note>)
    requires Aligned(|before|) == |before| && |before + EncodeNotes(notes)| <= MAX_LENGTH
    requires forall i :: 0 <= i < |notes| ==> Encodable(notes[i])
    ensures Parse(before + EncodeNotes(notes), |before|) == notes
  {
    hide Aligned, Parse, EncodeRecords, IsUtf8;
    forall i | 0 <= i < |notes|
      ensures Writable(Terminated(notes)[i])
    {
      assert Encodable(notes[i]);
    }
    RecordsRoundTrip(before, Terminated(notes));
    NotesOfTerminated(notes);
  }

  /** A note with an ASCII name, as the kernel and the toolchain write them. */
  predicate AsciiNote(n: Note) {
    && |n.name| + 1 < 0x1_0000_0000
    && |n.desc| < 0x1_0000_0000
    && forall i :: 0 <= i < |n.name| ==> 0 < n.name[i] < 0x80
  }

  /** A whole segment of notes with NUL-free ASCII names comes back. */
  lemma AsciiNotesRoundTrip(notes: seq<Note>)
    requires |EncodeNotes(notes)| <= MAX_LENGTH
    requires forall i :: 0 <= i < |notes| ==> AsciiNote(notes[i])
    ensures Parse(EncodeNotes(notes), 0) == notes
  {
    hide EncodeNotes, Parse, IsUtf8;
    forall i | 0 <= i < |notes|
      ensures Encodable(notes[i])
    {
      assert AsciiNote(notes[i]);
      AsciiIsUtf8(notes[i].name);
    }
    assert [] + EncodeNotes(notes) == EncodeNotes(notes);
    NotesRoundTrip([], notes);
  }

  // ----- Truncation -----

  lemma RecordInPrefix(data: seq<U8>, length: nat, off: U64)
    requires length <= |data| <= MAX_LENGTH && off <= length + 3 && RecordAt(data[..length], off).Some?
    ensures RecordAt(data, off) == RecordAt(data[..length], off)
  {
    hide Aligned, RecordAt, FromLe;
    var cut := data[..length];
    RecordExactly(cut, off);
    RecordExactly(data, off);
    PrefixSlice(data, length, off, off + 4);
    PrefixSlice(data, length, off + 4, off + 8);
    PrefixSlice(data, length, off + 8, off + 12);
    var nameEnd := off + 12 + ReadU32(cut, off).value;
    AlignedBounds(nameEnd);
    PrefixSlice(data, length, off + 12, nameEnd);
    var descStart := Aligned(nameEnd);
    var descEnd := descStart + ReadU32(cut, off + 4).value;
    PrefixSlice(data, length, descStart, descEnd);
  }

  /** Walking a truncated segment gives a prefix of the notes of the whole one. */
  lemma {:induction false} TruncationGivesPrefix(data: seq<U8>, length: nat, off: U64)
    requires length <= |data| <= MAX_LENGTH && off <= length + 3
    ensures Parse(data[..length], off) <= Parse(data, off)
    decreases length + 4 - off
  {
    hide RecordAt;
    if RecordAt(data[..length], off).Some? {
      RecordInPrefix(data, length, off);
      RecordAdvances(data[..length], off);
      TruncationGivesPrefix(data, length, RecordAt(data, off).value.next);
    }
  }
}
