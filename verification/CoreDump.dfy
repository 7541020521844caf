/** Threads and file mappings, out of a core dump's notes. */
module CoreDump {
  import opened Words
  import opened Bytes
  import opened Notes
  import opened Tls

  const NT_PRSTATUS: U32 := 1
  const NT_FILE: U32 := 0x4649_4c45
  const NT_ARM_TLS: U32 := 0x401
  const MAX_MAPPINGS: nat := 100_000

  const CORE: seq<U8> := [0x43, 0x4F, 0x52, 0x45]
  const LINUX: seq<U8> := [0x4C, 0x49, 0x4E, 0x55, 0x58]

  // ----- Registers -----

  datatype Arch = X86_64 | Aarch64

  datatype Regs = Regs(pc: U64, sp: U64, tp: U64, threadId: I32)

  datatype NoteError = NoteTooShort(expected: nat, actual: nat)

  function TlsNoteType(arch: Arch): Option<U32> {
    match arch
    case X86_64 => None
    case Aarch64 => Some(NT_ARM_TLS)
  }

  function ToSigned(n: U32): I32 {
    if n < 0x8000_0000 then n else n - 0x1_0000_0000
  }

  /** Byte offsets of the fields of NT_PRSTATUS; on aarch64 the thread pointer is elsewhere. */
  function PrstatusLength(arch: Arch): nat {
    match arch
    case X86_64 => 288
    case Aarch64 => 376
  }

  function ParsePrstatus(arch: Arch, desc: seq<U8>): Result<Regs, NoteError> {
    if |desc| < PrstatusLength(arch) then Err(NoteTooShort(PrstatusLength(arch), |desc|))
    else
      var id := ToSigned(ReadU32(desc, 32).value);
      match arch
      case X86_64 => Ok(Regs(ReadU64(desc, 240).value, ReadU64(desc, 264).value, ReadU64(desc, 280).value, id))
      case Aarch64 => Ok(Regs(ReadU64(desc, 368).value, ReadU64(desc, 360).value, 0, id))
  }

  function ParseTlsNote(arch: Arch, desc: seq<U8>): Option<U64> {
    match arch
    case X86_64 => None
    case Aarch64 => ReadU64(desc, 0)
  }

  // ----- Pairing threads with their TLS notes -----

  predicate IsPrstatus(n: Note) {
    n.noteType == NT_PRSTATUS && n.name == CORE
  }

  predicate IsTls(arch: Arch, n: Note) {
    !IsPrstatus(n) && Some(n.noteType) == TlsNoteType(arch) && (n.name == CORE || n.name == LINUX)
  }

  datatype Pairing = Pairing(threads: seq<Thread>, pending: Option<U64>)

  function TakePrstatus(p: Pairing, regs: Regs): Pairing {
    if regs.tp == 0 && p.pending.Some?
    then Pairing(p.threads + [Thread(regs.pc, regs.sp, p.pending.value, regs.threadId)], None)
    else Pairing(p.threads + [Thread(regs.pc, regs.sp, regs.tp, regs.threadId)], p.pending)
  }

  function TakeTls(p: Pairing, tp: U64): Pairing {
    if p.threads != [] && p.threads[|p.threads| - 1].tp == 0
    then p.(threads := p.threads[|p.threads| - 1 := p.threads[|p.threads| - 1].(tp := tp)])
    else p.(pending := Some(tp))
  }

  function Take(arch: Arch, p: Pairing, n: Note): Result<Pairing, NoteError> {
    if IsPrstatus(n) then
      var regs :- ParsePrstatus(arch, n.desc);
      Ok(TakePrstatus(p, regs))
    else if IsTls(arch, n) then
      match ParseTlsNote(arch, n.desc)
      case None => Ok(p)
      case Some(tp) => Ok(TakeTls(p, tp))
    else Ok(p)
  }

  function TakeAll(arch: Arch, p: Pairing, notes: seq<Note>): Result<Pairing, NoteError>
    decreases |notes|
  {
    if notes == [] then Ok(p)
    else
      var next :- Take(arch, p, notes[0]);
      TakeAll(arch, next, notes[1..])
  }

  method Threads(notes: seq<Note>, arch: Arch) returns (r: Result<seq<Thread>, NoteError>)
    ensures var all := TakeAll(arch, Pairing([], None), notes);
            r == match all case Err(error) => Err(error) case Ok(p) => Ok(p.threads)
  {
    var threads: seq<Thread> := [];
    var pendingTp: Option<U64> := None;
    var tlsNote := TlsNoteType(arch);
    for i := 0 to |notes|
      invariant TakeAll(arch, Pairing([], None), notes) == TakeAll(arch, Pairing(threads, pendingTp), notes[i..])
    {
      var note := notes[i];
      assert notes[i..][0] == note && notes[i..][1..] == notes[i + 1..];
      if note.noteType == NT_PRSTATUS && note.name == CORE {
        var parsed := ParsePrstatus(arch, note.desc);
        if parsed.Err? {
          return Err(parsed.error);
        }
        var regs := parsed.value;
        if regs.tp == 0 {
          if pendingTp.Some? {
            regs := regs.(tp := pendingTp.value);
            pendingTp := None;
          }
        }
        threads := threads + [Thread(regs.pc, regs.sp, regs.tp, regs.threadId)];
      } else if Some(note.noteType) == tlsNote && (note.name == CORE || note.name == LINUX) {
        var tp := ParseTlsNote(arch, note.desc);
        if tp.Some? {
          if threads != [] && threads[|threads| - 1].tp == 0 {
            threads := threads[|threads| - 1 := threads[|threads| - 1].(tp := tp.value)];
          } else {
            pendingTp := tp;
          }
        }
      }
    }
    r := Ok(threads);
  }

  /** The notes of one thread: a PRSTATUS and a TLS note, in either order, among unrelated notes. */
  datatype Group = Group(before: seq<Note>, first: Note, between: seq<Note>, second: Note, after: seq<Note>)

  function NotesOf(g: Group): seq<Note> {
    g.before + [g.first] + g.between + [g.second] + g.after
  }

  function AllNotes(groups: seq<Group>): seq<Note> {
    if groups == [] then [] else NotesOf(groups[0]) + AllNotes(groups[1..])
  }

  /** A note of type 1 named "CORE". */
  predicate IsThreadNote(n: Note) {
    n.noteType == 1 && n.name == [0x43, 0x4F, 0x52, 0x45]
  }

  /** On aarch64, a note of type 0x401 named "CORE" or "LINUX". */
  predicate IsPointerNote(arch: Arch, n: Note) {
    && arch == Aarch64
    && n.noteType == 0x401
    && (n.name == [0x43, 0x4F, 0x52, 0x45] || n.name == [0x4C, 0x49, 0x4E, 0x55, 0x58])
  }

  predicate Unrelated(arch: Arch, notes: seq<Note>) {
    forall i :: 0 <= i < |notes| ==> !IsThreadNote(notes[i]) && !IsPointerNote(arch, notes[i])
  }

  lemma NotesAreTheirs(arch: Arch, n: Note)
    ensures IsPrstatus(n) <==> IsThreadNote(n)
    ensures IsTls(arch, n) <==> IsPointerNote(arch, n)
  {
  }

  function PrstatusOf(g: Group): Note {
    if IsThreadNote(g.first) then g.first else g.second
  }

  function TlsOf(g: Group): Note {
    if IsThreadNote(g.first) then g.second else g.first
  }

  /** A group of an architecture with a TLS note, whose PRSTATUS parses and whose thread pointer is not null. */
  predicate SoundGroup(arch: Arch, g: Group) {
    && Unrelated(arch, g.before) && Unrelated(arch, g.between) && Unrelated(arch, g.after)
    && IsThreadNote(PrstatusOf(g)) && IsPointerNote(arch, TlsOf(g))
    && ParsePrstatus(arch, PrstatusOf(g).desc).Ok?
    && ParseTlsNote(arch, TlsOf(g).desc).Some? && ParseTlsNote(arch, TlsOf(g).desc).value != 0
  }

  /** The thread of a group: its own registers and id, and its own thread pointer. */
  function ThreadOf(arch: Arch, g: Group): Thread
    requires SoundGroup(arch, g)
  {
    var regs := ParsePrstatus(arch, PrstatusOf(g).desc).value;
    Thread(regs.pc, regs.sp, ParseTlsNote(arch, TlsOf(g).desc).value, regs.threadId)
  }

  function ThreadsOf(arch: Arch, groups: seq<Group>): seq<Thread>
    requires forall i :: 0 <= i < |groups| ==> SoundGroup(arch, groups[i])
  {
    if groups == [] then [] else [ThreadOf(arch, groups[0])] + ThreadsOf(arch, groups[1..])
  }

  lemma {:induction false} TakeConcat(arch: Arch, p: Pairing, a: seq<Note>, b: seq<Note>)
    ensures TakeAll(arch, p, a + b) ==
            match TakeAll(arch, p, a) case Err(error) => Err(error) case Ok(q) => TakeAll(arch, q, b)
    decreases |a|
  {
    hide Take;
    if a == [] {
      assert a + b == b;
    } else {
      assert (a + b)[0] == a[0] && (a + b)[1..] == a[1..] + b;
      if Take(arch, p, a[0]).Ok? {
        TakeConcat(arch, Take(arch, p, a[0]).value, a[1..], b);
      }
    }
  }

  lemma {:induction false} UnrelatedSkipped(arch: Arch, p: Pairing, notes: seq<Note>)
    requires Unrelated(arch, notes)
    ensures TakeAll(arch, p, notes) == Ok(p)
  {
    if notes != [] {
      NotesAreTheirs(arch, notes[0]);
      UnrelatedSkipped(arch, p, notes[1..]);
    }
  }

  lemma TakeOne(arch: Arch, p: Pairing, n: Note)
    ensures TakeAll(arch, p, [n]) == Take(arch, p, n)
  {
    hide Take;
    if Take(arch, p, n).Ok? {
      assert TakeAll(arch, Take(arch, p, n).value, []) == Take(arch, p, n);
    }
  }

  /** At a group boundary nothing is pending and the last thread has its thread pointer. */
  predicate AtBoundary(p: Pairing) {
    p.pending == None && (p.threads != [] ==> p.threads[|p.threads| - 1].tp != 0)
  }

  lemma NotBoth(arch: Arch, n: Note)
    ensures !(IsThreadNote(n) && IsPointerNote(arch, n))
  {
  }

  lemma GroupGivesThread(arch: Arch, p: Pairing, g: Group)
    requires SoundGroup(arch, g) && AtBoundary(p)
    ensures TakeAll(arch, p, NotesOf(g)) == Ok(Pairing(p.threads + [ThreadOf(arch, g)], None))
    ensures AtBoundary(Pairing(p.threads + [ThreadOf(arch, g)], None))
  {
    hide TakeAll, IsPrstatus, IsTls, IsThreadNote, IsPointerNote, FromLe;
    NotesAreTheirs(arch, g.first);
    NotesAreTheirs(arch, g.second);
    NotBoth(arch, g.first);
    NotBoth(arch, g.second);
    var mid := Take(arch, p, g.first).value;
    var end := Pairing(p.threads + [ThreadOf(arch, g)], None);
    assert Take(arch, p, g.first).Ok?;
    if IsThreadNote(g.first) {
      var n := |p.threads|;
      assert mid.threads[n := ThreadOf(arch, g)] == end.threads;
    }
    assert Take(arch, mid, g.second) == Ok(end);
    var upToSecond := g.before + [g.first] + g.between + [g.second];
    UnrelatedSkipped(arch, p, g.before);
    TakeConcat(arch, p, g.before, [g.first]);
    TakeOne(arch, p, g.first);
    TakeConcat(arch, p, g.before + [g.first], g.between);
    UnrelatedSkipped(arch, mid, g.between);
    TakeConcat(arch, p, g.before + [g.first] + g.between, [g.second]);
    TakeOne(arch, mid, g.second);
    TakeConcat(arch, p, upToSecond, g.after);
    UnrelatedSkipped(arch, end, g.after);
  }

  /** Any sequence of groups yields one thread per group, with its own id and thread pointer. */
  lemma {:induction false} GroupsGiveThreads(arch: Arch, p: Pairing, groups: seq<Group>)
    requires forall i :: 0 <= i < |groups| ==> SoundGroup(arch, groups[i])
    requires AtBoundary(p)
    ensures TakeAll(arch, p, AllNotes(groups)) == Ok(Pairing(p.threads + ThreadsOf(arch, groups), None))
    ensures AtBoundary(Pairing(p.threads + ThreadsOf(arch, groups), None))
    decreases |groups|
  {
    hide SoundGroup, Take, ThreadOf, NotesOf;
    if groups == [] {
      assert p.threads + [] == p.threads;
    } else {
      var g, rest := groups[0], groups[1..];
      assert forall i :: 0 <= i < |rest| ==> rest[i] == groups[i + 1];
      assert ThreadsOf(arch, groups) == [ThreadOf(arch, g)] + ThreadsOf(arch, rest);
      assert AllNotes(groups) == NotesOf(g) + AllNotes(rest);
      hide TakeAll, AllNotes, ThreadsOf;
      var next := Pairing(p.threads + [ThreadOf(arch, g)], None);
      GroupGivesThread(arch, p, g);
      TakeConcat(arch, p, NotesOf(g), AllNotes(rest));
      GroupsGiveThreads(arch, next, rest);
      assert p.threads + [ThreadOf(arch, g)] + ThreadsOf(arch, rest) == p.threads + ThreadsOf(arch, groups);
    }
  }

  // ----- The bytes of a PRSTATUS -----

  /** The two's complement of a thread id, as a 32-bit word. */
  function Unsigned(id: I32): nat {
    if id < 0 then id + 0x1_0000_0000 else id
  }

  /** The descriptor has this id 32 bytes in, and a general register file 112 bytes in with these registers. */
  ghost predicate HasRegisters(desc: seq<U8>, id: I32, pc: U64, pcIndex: nat, sp: U64, spIndex: nat) {
    && HasAt(desc, 32, ToLe(Unsigned(id), 4))
    && HasAt(desc, 112 + 8 * pcIndex, ToLe(pc, 8))
    && HasAt(desc, 112 + 8 * spIndex, ToLe(sp, 8))
  }

  lemma ReadsBack64(desc: seq<U8>, off: nat, n: U64)
    requires HasAt(desc, off, ToLe(n, 8))
    ensures ReadU64(desc, off) == Some(n)
  {
    Pow256Values();
    LeRoundTrip(n, 8);
  }

  lemma ReadsBackId(desc: seq<U8>, id: I32)
    requires HasAt(desc, 32, ToLe(Unsigned(id), 4))
    ensures ReadU32(desc, 32).Some? && ToSigned(ReadU32(desc, 32).value) == id
  {
    Pow256Values();
    LeRoundTrip(Unsigned(id), 4);
  }

  /** On x86-64 registers 16, 19 and 21 are the program counter, the stack pointer and the thread pointer. */
  lemma X86PrstatusReadsBack(desc: seq<U8>, regs: Regs)
    requires HasRegisters(desc, regs.threadId, regs.pc, 16, regs.sp, 19)
    requires HasAt(desc, 112 + 8 * 21, ToLe(regs.tp, 8))
    ensures ParsePrstatus(X86_64, desc) == Ok(regs)
  {
    hide HasAt, ToLe, ReadU32, ReadU64, ToSigned;
    LongEnough(desc, 280, ToLe(regs.tp, 8));
    ReadsBackId(desc, regs.threadId);
    ReadsBack64(desc, 240, regs.pc);
    ReadsBack64(desc, 264, regs.sp);
    ReadsBack64(desc, 280, regs.tp);
  }

  /** On aarch64 registers 32 and 31 are the program counter and the stack pointer; the thread pointer is elsewhere. */
  lemma Aarch64PrstatusReadsBack(desc: seq<U8>, regs: Regs)
    requires HasRegisters(desc, regs.threadId, regs.pc, 32, regs.sp, 31) && regs.tp == 0
    ensures ParsePrstatus(Aarch64, desc) == Ok(regs)
  {
    hide HasAt, ToLe, ReadU32, ReadU64, ToSigned;
    LongEnough(desc, 368, ToLe(regs.pc, 8));
    ReadsBackId(desc, regs.threadId);
    ReadsBack64(desc, 368, regs.pc);
    ReadsBack64(desc, 360, regs.sp);
  }

  lemma LongEnough(desc: seq<U8>, off: nat, part: seq<U8>)
    requires HasAt(desc, off, part)
    ensures off + |part| <= |desc|
  {
  }

  /** The TLS note of aarch64 is the thread pointer; x86-64 has none. */
  lemma TlsNoteReadsBack(desc: seq<U8>, tp: U64)
    requires HasAt(desc, 0, ToLe(tp, 8))
    ensures ParseTlsNote(Aarch64, desc) == Some(tp) && TlsNoteType(Aarch64) == Some(0x401)
    ensures TlsNoteType(X86_64) == None
  {
    hide HasAt, ToLe, ReadU64;
    ReadsBack64(desc, 0, tp);
  }

  /** Too short to have all registers read from it. */
  predicate IsShort(arch: Arch, n: Note) {
    IsThreadNote(n) && |n.desc| < if arch == X86_64 then 288 else 376
  }

  /** Threads fail exactly at the first PRSTATUS that is too short, whatever comes before or after it. */
  lemma {:induction false} ShortPrstatusIsFatal(arch: Arch, p: Pairing, notes: seq<Note>)
    ensures TakeAll(arch, p, notes).Err? <==> exists i :: 0 <= i < |notes| && IsShort(arch, notes[i])
    ensures forall i :: 0 <= i < |notes| && IsShort(arch, notes[i])
                        && (forall j :: 0 <= j < i ==> !IsShort(arch, notes[j])) ==>
              TakeAll(arch, p, notes)
              == Err(NoteTooShort(if arch == X86_64 then 288 else 376, |notes[i].desc|))
    decreases |notes|
  {
    hide TakePrstatus, TakeTls, ReadU32, ReadU64;
    if notes != [] {
      var rest := notes[1..];
      assert forall i :: 0 < i < |notes| ==> notes[i] == rest[i - 1];
      assert forall i :: 0 <= i < |rest| ==> rest[i] == notes[i + 1];
      if Take(arch, p, notes[0]).Ok? {
        ShortPrstatusIsFatal(arch, Take(arch, p, notes[0]).value, rest);
        assert !IsShort(arch, notes[0]);
        forall i | 0 <= i < |notes| && IsShort(arch, notes[i]) && (forall j :: 0 <= j < i ==> !IsShort(arch, notes[j]))
          ensures TakeAll(arch, p, notes) == Err(NoteTooShort(if arch == X86_64 then 288 else 376, |notes[i].desc|))
        {
          assert forall j :: 0 <= j < i - 1 ==> !IsShort(arch, rest[j]);
        }
      } else {
        assert IsShort(arch, notes[0]);
      }
    }
  }

  /** The PRSTATUS notes, in order. */
  function Prstatuses(notes: seq<Note>): seq<Note> {
    if notes == [] then []
    else (if IsThreadNote(notes[0]) then [notes[0]] else []) + Prstatuses(notes[1..])
  }

  /**
   * On x86-64, which has no TLS note, there is one thread for each PRSTATUS, in order, with its own registers and
   * its own thread pointer, whatever other notes there are.
   */
  lemma {:induction false} X86ThreadsAreTheirOwn(p: Pairing, notes: seq<Note>)
    requires p.pending == None && forall i :: 0 <= i < |notes| ==> !IsShort(X86_64, notes[i])
    ensures TakeAll(X86_64, p, notes).Ok?
    ensures var q, own := TakeAll(X86_64, p, notes).value, Prstatuses(notes);
            && q.pending == None
            && |q.threads| == |p.threads| + |own|
            && (forall i :: 0 <= i < |p.threads| ==> q.threads[i] == p.threads[i])
            && (forall i :: 0 <= i < |own| ==> IsOwnThread(own[i], q.threads[|p.threads| + i]))
    decreases |notes|
  {
    hide ReadU32, ReadU64, ToSigned;
    if notes != [] {
      var next, rest := Take(X86_64, p, notes[0]).value, notes[1..];
      assert !IsShort(X86_64, notes[0]);
      assert forall i :: 0 <= i < |rest| ==> rest[i] == notes[i + 1];
      X86ThreadsAreTheirOwn(next, rest);
      var q, own, later := TakeAll(X86_64, p, notes).value, Prstatuses(notes), Prstatuses(rest);
      if IsPrstatus(notes[0]) {
        assert own == [notes[0]] + later;
        assert q.threads[|p.threads|] == next.threads[|p.threads|];
        forall i | 0 <= i < |own|
          ensures IsOwnThread(own[i], q.threads[|p.threads| + i])
        {
          if i > 0 {
            assert IsOwnThread(later[i - 1], q.threads[|next.threads| + (i - 1)]);
          }
        }
      }
    }
  }

  /** The thread has the registers, the thread pointer and the id of the x86-64 PRSTATUS. */
  predicate IsOwnThread(n: Note, t: Thread) {
    ParsePrstatus(X86_64, n.desc) == Ok(Regs(t.pc, t.sp, t.tp, t.threadId))
  }
}
