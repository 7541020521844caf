/** The process's file mappings, out of its NT_FILE note. */
module Mappings {
  import opened Words
  import opened Bytes
  import opened Notes
  import opened CoreDump

  datatype MappedFile = MappedFile(start: U64, end: U64, fileOffset: U64, path: seq<U8>)

  datatype Range = Range(start: U64, end: U64, fileOffset: U64)

  function Width(is64: bool): nat {
    if is64 then 8 else 4
  }

  /** A target machine word, zero-extended. */
  function ReadWord(buf: seq<U8>, off: nat, is64: bool): Option<U64> {
    if is64 then ReadU64(buf, off) else ReadU32(buf, off)
  }

  function ReadRange(desc: seq<U8>, off: nat, is64: bool): Option<Range> {
    var w := Width(is64);
    var start, end, fileOffset :=
      ReadWord(desc, off, is64), ReadWord(desc, off + w, is64), ReadWord(desc, off + 2 * w, is64);
    if start.None? || end.None? || fileOffset.None? then None
    else Some(Range(start.value, end.value, fileOffset.value))
  }

  /** Up to `n` triples from `off` on, and where they end. */
  function ReadRanges(desc: seq<U8>, off: nat, is64: bool, n: nat): (seq<Range>, nat)
    decreases n
  {
    if n == 0 then ([], off)
    else
      match ReadRange(desc, off, is64)
      case None => ([], off)
      case Some(range) =>
        var (rest, end) := ReadRanges(desc, off + 3 * Width(is64), is64, n - 1);
        ([range] + rest, end)
  }

  /** The offset of the first NUL from `off` on. */
  function FindNul(buf: seq<U8>, off: nat): (r: Option<nat>)
    ensures r.Some? ==> off <= r.value < |buf|
    decreases |buf| - off
  {
    if off >= |buf| then None
    else if buf[off] == 0 then Some(off)
    else FindNul(buf, off + 1)
  }

  /** The NUL-terminated string at `off`, and the offset past its NUL. */
  function ReadCstr(buf: seq<U8>, off: nat): Option<(seq<U8>, nat)> {
    match FindNul(buf, off)
    case None => None
    case Some(nul) => Some((buf[off..nul], nul + 1))
  }

  function ReadFiles(desc: seq<U8>, ranges: seq<Range>, off: nat): seq<MappedFile> {
    if ranges == [] then []
    else
      match ReadCstr(desc, off)
      case None => []
      case Some((path, next)) =>
        [MappedFile(ranges[0].start, ranges[0].end, ranges[0].fileOffset, path)] + ReadFiles(desc, ranges[1..], next)
  }

  function ParseMappings(desc: seq<U8>, is64: bool): seq<MappedFile> {
    match ReadWord(desc, 0, is64)
    case None => []
    case Some(count) =>
      var (ranges, off) := ReadRanges(desc, 2 * Width(is64), is64, Min(count, MAX_MAPPINGS));
      ReadFiles(desc, ranges, off)
  }

  /** The first NT_FILE note decides; none gives no mappings. */
  function MappedFiles(notes: seq<Note>, is64: bool): seq<MappedFile> {
    if notes == [] then []
    else if notes[0].noteType == NT_FILE then ParseMappings(notes[0].desc, is64)
    else MappedFiles(notes[1..], is64)
  }

  /** The fixed-size triples first, so that the paths can then be streamed. */
  method ReadTable(desc: seq<U8>, start: nat, is64: bool, count: nat) returns (ranges: seq<Range>, off: nat)
    ensures ranges == ReadRanges(desc, start, is64, count).0
    ensures off == ReadRanges(desc, start, is64, count).1
  {
    hide ReadRange, Width;
    ranges, off := [], start;
    ghost var all := ReadRanges(desc, start, is64, count);
    for i := 0 to count
      invariant all.0 == ranges + ReadRanges(desc, off, is64, count - i).0
      invariant all.1 == ReadRanges(desc, off, is64, count - i).1
    {
      var range := ReadRange(desc, off, is64);
      if range.None? {
        break;
      }
      ranges := ranges + [range.value];
      off := off + 3 * Width(is64);
    }
  }

  method ReadMappings(desc: seq<U8>, is64: bool) returns (files: seq<MappedFile>)
    ensures files == ParseMappings(desc, is64)
  {
    hide ReadWord, ReadCstr, ReadRanges, Width;
    var read := ReadWord(desc, 0, is64);
    if read.None? {
      return [];
    }
    var ranges, off := ReadTable(desc, 2 * Width(is64), is64, Min(read.value, MAX_MAPPINGS));
    files := [];
    ghost var goal := ReadFiles(desc, ranges, off);
    for k := 0 to |ranges|
      invariant goal == files + ReadFiles(desc, ranges[k..], off)
    {
      assert ranges[k..][1..] == ranges[k + 1..];
      var path := ReadCstr(desc, off);
      if path.None? {
        break;
      }
      files := files + [MappedFile(ranges[k].start, ranges[k].end, ranges[k].fileOffset, path.value.0)];
      off := path.value.1;
    }
  }

  // ----- Encoding mappings, and reading them back -----

  predicate Fits(is64: bool, n: nat) {
    n < Pow256(Width(is64))
  }

  predicate EncodableFile(is64: bool, m: MappedFile) {
    Fits(is64, m.start) && Fits(is64, m.end) && Fits(is64, m.fileOffset) && 0 !in m.path
  }

  function RangeOf(m: MappedFile): Range {
    Range(m.start, m.end, m.fileOffset)
  }

  function RangesOf(files: seq<MappedFile>): (r: seq<Range>)
    ensures |r| == |files|
  {
    if files == [] then [] else [RangeOf(files[0])] + RangesOf(files[1..])
  }

  function EncodeRange(is64: bool, m: MappedFile): (s: seq<U8>)
    ensures |s| == 3 * Width(is64)
  {
    var w := Width(is64);
    ToLe(m.start, w) + (ToLe(m.end, w) + ToLe(m.fileOffset, w))
  }

  function EncodeRanges(is64: bool, files: seq<MappedFile>): seq<U8> {
    if files == [] then [] else EncodeRange(is64, files[0]) + EncodeRanges(is64, files[1..])
  }

  function EncodePaths(files: seq<MappedFile>): seq<U8> {
    if files == [] then [] else files[0].path + ([0] + EncodePaths(files[1..]))
  }

  /** An NT_FILE descriptor: count, page size, the range table, then the paths. */
  function EncodeMappings(is64: bool, pageSize: nat, files: seq<MappedFile>): seq<U8> {
    var w := Width(is64);
    ToLe(|files|, w) + (ToLe(pageSize, w) + (EncodeRanges(is64, files) + EncodePaths(files)))
  }

  lemma WordReadsBack(data: seq<U8>, off: nat, is64: bool, n: U64)
    requires Fits(is64, n) && HasAt(data, off, ToLe(n, Width(is64)))
    ensures ReadWord(data, off, is64) == Some(n)
  {
    LeRoundTrip(n, Width(is64));
  }

  lemma {:induction false} RangesReadBack(data: seq<U8>, off: nat, is64: bool, files: seq<MappedFile>)
    requires HasAt(data, off, EncodeRanges(is64, files))
    requires forall i :: 0 <= i < |files| ==> EncodableFile(is64, files[i])
    ensures ReadRanges(data, off, is64, |files|) == (RangesOf(files), off + |EncodeRanges(is64, files)|)
    decreases |files|
  {
    hide HasAt, ReadWord, ToLe, Fits;
    if files != [] {
      var m, w := files[0], Width(is64);
      HasParts(data, off, EncodeRange(is64, m), EncodeRanges(is64, files[1..]));
      HasParts(data, off, ToLe(m.start, w), ToLe(m.end, w) + ToLe(m.fileOffset, w));
      HasParts(data, off + w, ToLe(m.end, w), ToLe(m.fileOffset, w));
      WordReadsBack(data, off, is64, m.start);
      WordReadsBack(data, off + w, is64, m.end);
      WordReadsBack(data, off + 2 * w, is64, m.fileOffset);
      assert forall i :: 0 <= i < |files[1..]| ==> files[1..][i] == files[i + 1];
      RangesReadBack(data, off + 3 * w, is64, files[1..]);
    }
  }

  lemma {:induction false} NulFound(data: seq<U8>, off: nat, path: seq<U8>)
    requires HasAt(data, off, path + [0]) && 0 !in path
    ensures FindNul(data, off) == Some(off + |path|)
    decreases |path|
  {
    assert data[off] == (path + [0])[0];
    if path != [] {
      assert path + [0] == [path[0]] + (path[1..] + [0]);
      HasParts(data, off, [path[0]], path[1..] + [0]);
      NulFound(data, off + 1, path[1..]);
    }
  }

  lemma CstrReadsBack(data: seq<U8>, off: nat, path: seq<U8>)
    requires HasAt(data, off, path + [0]) && 0 !in path
    ensures ReadCstr(data, off) == Some((path, off + |path| + 1))
  {
    NulFound(data, off, path);
    HasParts(data, off, path, [0]);
  }

  lemma {:induction false} PathsReadBack(data: seq<U8>, off: nat, is64: bool, files: seq<MappedFile>)
    requires HasAt(data, off, EncodePaths(files))
    requires forall i :: 0 <= i < |files| ==> EncodableFile(is64, files[i])
    ensures ReadFiles(data, RangesOf(files), off) == files
    decreases |files|
  {
    hide Fits, HasAt, ReadCstr, EncodePaths, ReadFiles;
    if files == [] {
      NoFileRead(data, RangesOf(files), off);
    } else {
      var m, rest := files[0], files[1..];
      FirstPath(files);
      HasParts(data, off, m.path + [0], EncodePaths(rest));
      CstrReadsBack(data, off, m.path);
      assert forall i :: 0 <= i < |rest| ==> rest[i] == files[i + 1];
      PathsReadBack(data, off + |m.path| + 1, is64, rest);
      FirstFile(data, RangesOf(files), off);
      assert RangesOf(files)[1..] == RangesOf(rest);
    }
  }

  lemma FirstPath(files: seq<MappedFile>)
    requires files != []
    ensures EncodePaths(files) == (files[0].path + [0]) + EncodePaths(files[1..])
  {
  }

  lemma NoFileRead(desc: seq<U8>, ranges: seq<Range>, off: nat)
    requires ranges == [] || ReadCstr(desc, off).None?
    ensures ReadFiles(desc, ranges, off) == []
  {
  }

  lemma FirstFile(desc: seq<U8>, ranges: seq<Range>, off: nat)
    requires ranges != [] && ReadCstr(desc, off).Some?
    ensures var (path, next) := ReadCstr(desc, off).value;
            ReadFiles(desc, ranges, off)
            == [MappedFile(ranges[0].start, ranges[0].end, ranges[0].fileOffset, path)]
               + ReadFiles(desc, ranges[1..], next)
  {
  }

  /** Encoding a complete table and parsing the descriptor gives the mappings back exactly within the cap. */
  lemma MappingsRoundTrip(is64: bool, pageSize: nat, files: seq<MappedFile>)
    requires Fits(is64, |files|)
    requires forall i :: 0 <= i < |files| ==> EncodableFile(is64, files[i])
    ensures ParseMappings(EncodeMappings(is64, pageSize, files), is64) == files <==> |files| <= 100_000
  {
    hide HasAt, ReadWord, ToLe, ReadRanges, ReadFiles, EncodeRanges, EncodePaths, Fits;
    var data, w := EncodeMappings(is64, pageSize, files), Width(is64);
    var table := EncodeRanges(is64, files) + EncodePaths(files);
    WholeIsThere(data);
    HasParts(data, 0, ToLe(|files|, w), ToLe(pageSize, w) + table);
    HasParts(data, w, ToLe(pageSize, w), table);
    HasParts(data, 2 * w, EncodeRanges(is64, files), EncodePaths(files));
    CountFits(is64, |files|);
    WordReadsBack(data, 0, is64, |files|);
    if |files| <= MAX_MAPPINGS {
      RangesReadBack(data, 2 * w, is64, files);
      PathsReadBack(data, 2 * w + |EncodeRanges(is64, files)|, is64, files);
    } else {
      var (ranges, off) := ReadRanges(data, 2 * w, is64, MAX_MAPPINGS);
      RangesBounded(data, 2 * w, is64, MAX_MAPPINGS);
      FilesBounded(data, ranges, off);
    }
  }

  lemma CountFits(is64: bool, n: nat)
    requires Fits(is64, n)
    ensures n < TWO64
  {
    Pow256Values();
  }

  lemma {:induction false} RangesBounded(desc: seq<U8>, off: nat, is64: bool, n: nat)
    ensures |ReadRanges(desc, off, is64, n).0| <= n
    decreases n
  {
    if n > 0 {
      RangesBounded(desc, off + 3 * Width(is64), is64, n - 1);
    }
  }

  lemma {:induction false} FilesBounded(desc: seq<U8>, ranges: seq<Range>, off: nat)
    ensures |ReadFiles(desc, ranges, off)| <= |ranges|
  {
    if ranges != [] && ReadCstr(desc, off).Some? {
      FilesBounded(desc, ranges[1..], ReadCstr(desc, off).value.1);
    }
  }

  lemma WholeIsThere(data: seq<U8>)
    ensures HasAt(data, 0, data)
  {
    assert data[0..|data|] == data;
  }

  /** Without a note of type 0x46494c45 there are no mappings. */
  lemma {:induction false} NoFileNoteGivesNone(notes: seq<Note>, is64: bool)
    requires forall i :: 0 <= i < |notes| ==> notes[i].noteType != 0x4649_4c45
    ensures MappedFiles(notes, is64) == []
  {
    if notes != [] {
      NoFileNoteGivesNone(notes[1..], is64);
    }
  }

  lemma {:induction false} FirstFileNoteDecides(notes: seq<Note>, is64: bool, k: nat)
    requires k < |notes| && notes[k].noteType == 0x4649_4c45
    requires forall i :: 0 <= i < k ==> notes[i].noteType != 0x4649_4c45
    ensures MappedFiles(notes, is64) == ParseMappings(notes[k].desc, is64)
  {
    if k > 0 {
      FirstFileNoteDecides(notes[1..], is64, k - 1);
    }
  }

  /**
   * Mappings encoded into the first NT_FILE note among other notes, and the notes into a segment, all come
   * back: the segment parses to the notes, and the notes to the mappings.
   */
  lemma ComposedRoundTrip(is64: bool, pageSize: nat, files: seq<MappedFile>, notes: seq<Note>, k: nat)
    requires |files| <= MAX_MAPPINGS
    requires forall i :: 0 <= i < |files| ==> EncodableFile(is64, files[i])
    requires |EncodeNotes(notes)| <= MAX_LENGTH && forall i :: 0 <= i < |notes| ==> Encodable(notes[i])
    requires k < |notes| && notes[k].noteType == NT_FILE && notes[k].desc == EncodeMappings(is64, pageSize, files)
    requires forall i :: 0 <= i < k ==> notes[i].noteType != NT_FILE
    ensures Parse(EncodeNotes(notes), 0) == notes
    ensures MappedFiles(Parse(EncodeNotes(notes), 0), is64) == files
  {
    hide EncodeNotes, Encodable, Parse;
    assert [] + EncodeNotes(notes) == EncodeNotes(notes);
    NotesRoundTrip([], notes);
    Pow256Values();
    FirstFileNoteDecides(notes, is64, k);
    MappingsRoundTrip(is64, pageSize, files);
  }

  // ----- Truncation -----

  lemma WordInPrefix(desc: seq<U8>, length: nat, off: nat, is64: bool)
    requires off + Width(is64) <= length <= |desc|
    ensures ReadWord(desc[..length], off, is64) == ReadWord(desc, off, is64)
  {
    hide FromLe;
    PrefixSlice(desc, length, off, off + Width(is64));
  }

  lemma {:induction false} RangesInPrefix(desc: seq<U8>, length: nat, off: nat, is64: bool, n: nat)
    requires off + 3 * Width(is64) * n <= length <= |desc|
    ensures ReadRanges(desc[..length], off, is64, n) == ReadRanges(desc, off, is64, n)
    decreases n
  {
    hide ReadWord;
    if n > 0 {
      var w := Width(is64);
      assert 3 * w * n == 3 * w * (n - 1) + 3 * w;
      WordInPrefix(desc, length, off, is64);
      WordInPrefix(desc, length, off + w, is64);
      WordInPrefix(desc, length, off + 2 * w, is64);
      RangesInPrefix(desc, length, off + 3 * w, is64, n - 1);
    }
  }

  lemma {:induction false} NulInPrefix(desc: seq<U8>, length: nat, off: nat)
    requires length <= |desc| && FindNul(desc[..length], off).Some?
    ensures FindNul(desc, off) == FindNul(desc[..length], off)
    decreases length - off
  {
    if desc[off] != 0 {
      NulInPrefix(desc, length, off + 1);
    }
  }

  lemma CstrInPrefix(desc: seq<U8>, length: nat, off: nat)
    requires length <= |desc| && ReadCstr(desc[..length], off).Some?
    ensures ReadCstr(desc, off) == ReadCstr(desc[..length], off)
  {
    NulInPrefix(desc, length, off);
    PrefixSlice(desc, length, off, FindNul(desc, off).value);
  }

  lemma {:induction false} FilesInPrefix(desc: seq<U8>, length: nat, ranges: seq<Range>, off: nat)
    requires length <= |desc|
    ensures ReadFiles(desc[..length], ranges, off) <= ReadFiles(desc, ranges, off)
    decreases |ranges|
  {
    hide ReadCstr, ReadFiles;
    if ranges != [] && ReadCstr(desc[..length], off).Some? {
      CstrInPrefix(desc, length, off);
      FirstFile(desc, ranges, off);
      FirstFile(desc[..length], ranges, off);
      FilesInPrefix(desc, length, ranges[1..], ReadCstr(desc, off).value.1);
    } else {
      NoFileRead(desc[..length], ranges, off);
    }
  }

  /** The length of the descriptor up to the end of its range table. */
  function TableEnd(desc: seq<U8>, is64: bool): nat {
    match ReadWord(desc, 0, is64)
    case None => 0
    case Some(count) => 2 * Width(is64) + 3 * Width(is64) * Min(count, MAX_MAPPINGS)
  }

  /** Of any descriptor cut behind its range table, the mappings are a prefix of those of the whole. */
  lemma TruncatedPathsGivePrefix(desc: seq<U8>, length: nat, is64: bool)
    requires TableEnd(desc, is64) <= length <= |desc|
    ensures ParseMappings(desc[..length], is64) <= ParseMappings(desc, is64)
  {
    hide ReadWord, ReadRanges, ReadFiles;
    if ReadWord(desc, 0, is64).None? {
      NoWordInPrefix(desc, length, is64);
    } else {
      WordInPrefix(desc, length, 0, is64);
      var n := Min(ReadWord(desc, 0, is64).value, MAX_MAPPINGS);
      RangesInPrefix(desc, length, 2 * Width(is64), is64, n);
      var (ranges, off) := ReadRanges(desc, 2 * Width(is64), is64, n);
      FilesInPrefix(desc, length, ranges, off);
    }
  }

  lemma NoWordInPrefix(desc: seq<U8>, length: nat, is64: bool)
    requires length <= |desc| && ReadWord(desc, 0, is64).None?
    ensures ReadWord(desc[..length], 0, is64).None?
  {
  }

  /** The strings from `off` on that end in a NUL, at most `n` of them. */
  function Strings(buf: seq<U8>, off: nat, n: nat): seq<seq<U8>>
    decreases n
  {
    if n == 0 then []
    else
      match ReadCstr(buf, off)
      case None => []
      case Some((s, next)) => [s] + Strings(buf, next, n - 1)
  }

  function PathsOf(files: seq<MappedFile>): (paths: seq<seq<U8>>)
    ensures |paths| == |files| && forall i :: 0 <= i < |paths| ==> paths[i] == files[i].path
  {
    seq(|files|, i requires 0 <= i < |files| => files[i].path)
  }

  /** Each file has the range in its place. */
  predicate HaveRanges(files: seq<MappedFile>, ranges: seq<Range>) {
    |files| <= |ranges| && forall i :: 0 <= i < |files| ==> RangeOf(files[i]) == ranges[i]
  }

  /** Each file is a range of the table with the string that comes in its place. */
  lemma {:induction false} FilesAreStrings(desc: seq<U8>, ranges: seq<Range>, off: nat)
    ensures PathsOf(ReadFiles(desc, ranges, off)) == Strings(desc, off, |ranges|)
    ensures HaveRanges(ReadFiles(desc, ranges, off), ranges)
    decreases |ranges|
  {
    hide ReadCstr;
    if ranges != [] && ReadCstr(desc, off).Some? {
      var files, rest := ReadFiles(desc, ranges, off), ReadFiles(desc, ranges[1..], ReadCstr(desc, off).value.1);
      FilesAreStrings(desc, ranges[1..], ReadCstr(desc, off).value.1);
      forall i | 0 < i < |files|
        ensures RangeOf(files[i]) == ranges[i]
      {
        assert files[i] == rest[i - 1] && ranges[i] == ranges[1..][i - 1];
      }
    }
  }

  /** Files read with the same ranges are a prefix of others exactly when their paths are. */
  lemma PrefixByPaths(files: seq<MappedFile>, files': seq<MappedFile>, ranges: seq<Range>, ranges': seq<Range>)
    requires ranges <= ranges'
    requires HaveRanges(files, ranges) && HaveRanges(files', ranges')
    ensures files <= files' <==> PathsOf(files) <= PathsOf(files')
  {
    if PathsOf(files) <= PathsOf(files') {
      forall i | 0 <= i < |files|
        ensures files[i] == files'[i]
      {
        assert PathsOf(files)[i] == PathsOf(files')[i];
        assert RangeOf(files[i]) == ranges[i] == ranges'[i] == RangeOf(files'[i]);
      }
    }
  }

  /** A table cut within a range reads as the ranges before it. */
  lemma {:induction false} RangesCutShort(desc: seq<U8>, length: nat, off: nat, is64: bool, n: nat, k: nat)
    requires k < n && off + 3 * Width(is64) * k <= length < off + 3 * Width(is64) * (k + 1)
    requires length <= |desc|
    ensures ReadRanges(desc[..length], off, is64, n)
         == (ReadRanges(desc, off, is64, k).0, off + 3 * Width(is64) * k)
    ensures |ReadRanges(desc, off, is64, k).0| == k
    ensures ReadRanges(desc, off, is64, k).0 <= ReadRanges(desc, off, is64, n).0
    decreases k
  {
    hide FromLe;
    if k > 0 {
      var w := Width(is64);
      assert 3 * w * k == 3 * w * (k - 1) + 3 * w && 3 * w * (k - 1) >= 0;
      WordInPrefix(desc, length, off, is64);
      WordInPrefix(desc, length, off + w, is64);
      WordInPrefix(desc, length, off + 2 * w, is64);
      RangesCutShort(desc, length, off + 3 * w, is64, n - 1, k - 1);
    }
  }

  /** How many ranges the first `length` bytes hold, and where what is left of the table starts. */
  function CompleteRanges(is64: bool, length: nat): nat {
    if length < 2 * Width(is64) then 0 else (length - 2 * Width(is64)) / (3 * Width(is64))
  }

  function LeftOver(is64: bool, length: nat): nat {
    2 * Width(is64) + 3 * Width(is64) * CompleteRanges(is64, length)
  }

  lemma LeftOverBounds(is64: bool, length: nat)
    requires 2 * Width(is64) <= length
    ensures LeftOver(is64, length) <= length < LeftOver(is64, length) + 3 * Width(is64)
    ensures forall n: nat :: length < 2 * Width(is64) + 3 * Width(is64) * n ==> CompleteRanges(is64, length) < n
  {
    var w := Width(is64);
    var k := CompleteRanges(is64, length);
    forall n: nat | length < 2 * w + 3 * w * n
      ensures k < n
    {
      assert n <= k ==> 3 * w * n <= 3 * w * k;
    }
  }

  /**
   * Of any descriptor, cut anywhere, the mappings are a prefix of those of the whole exactly when the cut lies
   * behind the range table, or the strings in what is left of the table happen to be the first paths.
   */
  lemma TruncationExactly(desc: seq<U8>, length: nat, is64: bool)
    requires length <= |desc|
    ensures ParseMappings(desc[..length], is64) <= ParseMappings(desc, is64)
       <==> || TableEnd(desc, is64) <= length
            || Strings(desc[..length], LeftOver(is64, length), CompleteRanges(is64, length))
               <= PathsOf(ParseMappings(desc, is64))
  {
    hide ReadWord, ReadRanges, ReadFiles, CompleteRanges, LeftOver, Strings;
    if TableEnd(desc, is64) <= length {
      TruncatedPathsGivePrefix(desc, length, is64);
    } else if length < 2 * Width(is64) {
      CutBeforeTable(desc, length, is64);
    } else {
      CutInTable(desc, length, is64);
    }
  }

  lemma CutBeforeTable(desc: seq<U8>, length: nat, is64: bool)
    requires length <= |desc| && length < 2 * Width(is64)
    ensures ParseMappings(desc[..length], is64) == []
    ensures Strings(desc[..length], LeftOver(is64, length), CompleteRanges(is64, length)) == []
  {
    hide FromLe;
  }

  lemma CutInTable(desc: seq<U8>, length: nat, is64: bool)
    requires 2 * Width(is64) <= length <= |desc| && length < TableEnd(desc, is64)
    ensures PathsOf(ParseMappings(desc[..length], is64))
         == Strings(desc[..length], LeftOver(is64, length), CompleteRanges(is64, length))
    ensures ParseMappings(desc[..length], is64) <= ParseMappings(desc, is64)
       <==> PathsOf(ParseMappings(desc[..length], is64)) <= PathsOf(ParseMappings(desc, is64))
  {
    hide ReadWord, ReadRanges, ReadFiles, CompleteRanges, Strings;
    var n, k := Min(ReadWord(desc, 0, is64).value, MAX_MAPPINGS), CompleteRanges(is64, length);
    var w, cut := Width(is64), desc[..length];
    LeftOverBounds(is64, length);
    assert 3 * w * (k + 1) == 3 * w * k + 3 * w;
    WordInPrefix(desc, length, 0, is64);
    RangesCutShort(desc, length, 2 * w, is64, n, k);
    var ranges := ReadRanges(desc, 2 * w, is64, k).0;
    var (all, off) := ReadRanges(desc, 2 * w, is64, n);
    FilesAreStrings(cut, ranges, LeftOver(is64, length));
    FilesAreStrings(desc, all, off);
    PrefixByPaths(ReadFiles(cut, ranges, LeftOver(is64, length)), ReadFiles(desc, all, off), ranges, all);
  }

  /**
   * Where the first path is at least as long as a range, or there is no path, this comes down to a zero byte:
   * a cut inside the table gives a prefix exactly when no range is complete or none of what is left is zero.
   */
  lemma TruncationByZeroBytes(desc: seq<U8>, length: nat, is64: bool)
    requires length <= |desc| && length < TableEnd(desc, is64)
    requires ParseMappings(desc, is64) != [] ==> |ParseMappings(desc, is64)[0].path| >= 3 * Width(is64)
    ensures ParseMappings(desc[..length], is64) <= ParseMappings(desc, is64)
       <==> CompleteRanges(is64, length) == 0 || forall i :: LeftOver(is64, length) <= i < length ==> desc[i] != 0
  {
    hide ReadWord, ParseMappings, CompleteRanges;
    TruncationExactly(desc, length, is64);
    if length < 2 * Width(is64) {
      CutBeforeTable(desc, length, is64);
    } else if CompleteRanges(is64, length) > 0 {
      LeftOverBounds(is64, length);
      FirstString(desc[..length], LeftOver(is64, length), CompleteRanges(is64, length));
    }
  }

  /** There is a string exactly when there is a NUL, and it ends before the buffer does. */
  lemma FirstString(buf: seq<U8>, off: nat, n: nat)
    requires off <= |buf| && n > 0
    ensures Strings(buf, off, n) == [] <==> forall i :: off <= i < |buf| ==> buf[i] != 0
    ensures Strings(buf, off, n) != [] ==> |Strings(buf, off, n)[0]| < |buf| - off
  {
    NulExactly(buf, off);
  }

  lemma {:induction false} NulExactly(buf: seq<U8>, off: nat)
    ensures FindNul(buf, off) == None <==> forall i :: off <= i < |buf| ==> buf[i] != 0
    decreases |buf| - off
  {
    if off < |buf| && buf[off] != 0 {
      NulExactly(buf, off + 1);
    }
  }

  /**
   * Whenever the first byte of a range past the first is zero, cutting right after it loses all mappings but
   * the first, and gives that one an empty path.
   */
  lemma TruncatedTableMisleads(desc: seq<U8>, is64: bool, k: nat)
    requires ReadWord(desc, 0, is64).Some? && 0 < k < Min(ReadWord(desc, 0, is64).value, MAX_MAPPINGS)
    requires var off := 2 * Width(is64) + 3 * Width(is64) * k; off < |desc| && desc[off] == 0
    ensures var cut := ParseMappings(desc[..2 * Width(is64) + 3 * Width(is64) * k + 1], is64);
            && |cut| == 1 && cut[0].path == []
            && (ParseMappings(desc, is64) != [] && ParseMappings(desc, is64)[0].path != [] ==>
                !(cut <= ParseMappings(desc, is64)))
  {
    hide ReadWord, ReadRanges;
    var w := Width(is64);
    var off := 2 * w + 3 * w * k;
    assert 3 * w * k >= 0 && 3 * w * (k + 1) == 3 * w * k + 3 * w;
    var cut, n := desc[..off + 1], Min(ReadWord(desc, 0, is64).value, MAX_MAPPINGS);
    WordInPrefix(desc, off + 1, 0, is64);
    RangesCutShort(desc, off + 1, 2 * w, is64, n, k);
    var ranges := ReadRanges(desc, 2 * w, is64, k).0;
    assert FindNul(cut, off) == Some(off);
    assert ReadFiles(cut, ranges[1..], off + 1) == [];
  }

  /** Two mappings of one page each, of the files "a" and "b". */
  const TwoPages: seq<MappedFile> :=
    [MappedFile(0x1000, 0x2000, 0, [0x61]), MappedFile(0x2000, 0x3000, 0, [0x62])]

  /** An instance: cut one byte into the second range, "a" is mapped without its name. */
  lemma TwoPagesMislead(pageSize: nat)
    ensures var desc := EncodeMappings(true, pageSize, TwoPages);
            && ParseMappings(desc, true) == TwoPages
            && |desc| == 68
            && |ParseMappings(desc[..41], true)| == 1 && ParseMappings(desc[..41], true)[0].path == []
            && !(ParseMappings(desc[..41], true) <= TwoPages)
  {
    hide ParseMappings, HasAt, ReadWord;
    Pow256Values();
    var desc := EncodeMappings(true, pageSize, TwoPages);
    MappingsRoundTrip(true, pageSize, TwoPages);
    TwoPagesTable(pageSize);
    TruncatedTableMisleads(desc, true, 1);
  }

  lemma TwoPagesTable(pageSize: nat)
    ensures var desc := EncodeMappings(true, pageSize, TwoPages);
            |desc| == 68 && ReadWord(desc, 0, true) == Some(2) && desc[40] == 0
  {
    hide ToLe, HasAt, ReadWord, Fits;
    var desc, a, b := EncodeMappings(true, pageSize, TwoPages), TwoPages[0], TwoPages[1];
    var paths := EncodePaths(TwoPages);
    assert TwoPages == [a, b] && TwoPages[1..] == [b] && [b][1..] == [];
    assert EncodeRanges(true, [b]) == EncodeRange(true, b) + [];
    assert EncodePaths([b]) == [0x62] + ([0] + []);
    assert paths == [0x61] + ([0] + EncodePaths([b]));
    assert desc == ToLe(2, 8) + ToLe(pageSize, 8) + EncodeRange(true, a) + EncodeRange(true, b) + paths;
    assert desc[40] == EncodeRange(true, b)[0] == ToLe(0x2000, 8)[0];
    FirstByte(0x2000, 8);
    assert Fits(true, 2) by {
      SmallFits();
    }
    assert desc[0..8] == ToLe(2, 8);
    WordReadsBack(desc, 0, true, 2) by {
      AtFront(desc, ToLe(2, 8));
    }
  }

  lemma FirstByte(n: nat, width: nat)
    requires width > 0
    ensures ToLe(n, width)[0] == n % 256
  {
  }

  lemma SmallFits()
    ensures Fits(true, 2)
  {
    Pow256Values();
  }

  lemma AtFront(data: seq<U8>, part: seq<U8>)
    requires |part| <= |data| && data[0..|part|] == part
    ensures HasAt(data, 0, part)
  {
  }
}
