/**
 Open files and descriptors (vfs.c, pipe.c, and the descriptor tables in task.c): a file is shared
 by the descriptors of any number of tasks, and it, and a pipe behind it, live exactly as long as
 some descriptor refers to them.
 */
module OpenFiles {
  import opened Basics

  const MAX_OPEN_FILES: nat := 128

  //  new_filp and do_get_filp also reach slot MAX_OPEN_FILES; the other loops stop before it.
  const SLOTS: nat := MAX_OPEN_FILES + 1

  const ENOENT := -2
  const ENOTDIR := -20
  const EBADF := -9
  const EMFILE := -24

  type Slot = Option<nat>
  type Tables = map<nat, seq<Slot>>

  datatype Kind = Regular | PipeEnd(pipe: nat)
  datatype File = File(count: int, kind: Kind)
  datatype Pipe = Pipe(reader: Slot, writer: Slot)

  /** What a path leads to; symbolic links are followed before. */
  datatype Lookup = Missing | Found(directory: bool)

  predicate Opens(lookup: Lookup, wantDirectory: bool) {
    lookup.Found? && (wantDirectory ==> lookup.directory)
  }

  ghost predicate Shaped(tables: Tables) {
    forall t :: t in tables ==> |tables[t]| == SLOTS
  }

  /** The descriptors, of all tasks, that refer to a file. */
  ghost function Refs(tables: Tables, f: nat): set<(nat, nat)>
    requires Shaped(tables)
  {
    set t, i | t in tables && 0 <= i < SLOTS && tables[t][i] == Some(f) :: (t, i)
  }

  ghost predicate Known(tables: Tables, files: map<nat, File>) {
    forall t, i :: t in tables && 0 <= i < |tables[t]| && tables[t][i].Some? ==> tables[t][i].value in files
  }

  /** Every live file's count is the number of descriptors that refer to it, and not zero. */
  ghost predicate Counted(tables: Tables, files: map<nat, File>)
    requires Shaped(tables)
  {
    && Known(tables, files)
    && forall f :: f in files ==> files[f].count == |Refs(tables, f)| >= 1
  }

  /** Both ends of every pipe that was ever made: its reading and its writing file. */
  type Ends = map<nat, (nat, nat)>

  ghost function Live(files: map<nat, File>, f: nat): Slot {
    if f in files then Some(f) else None
  }

  /** A pipe is there while one of its ends is, and each end pointer is set while that end is there. */
  ghost predicate PipesOk(files: map<nat, File>, pipes: map<nat, Pipe>, ends: Ends) {
    && (forall p :: p in ends ==>
      && ends[p].0 != ends[p].1
      && (p in pipes <==> ends[p].0 in files || ends[p].1 in files)
      && (p in pipes ==> pipes[p] == Pipe(Live(files, ends[p].0), Live(files, ends[p].1)))
      && (ends[p].0 in files ==> files[ends[p].0].kind == PipeEnd(p))
      && (ends[p].1 in files ==> files[ends[p].1].kind == PipeEnd(p)))
    && (forall p :: p in pipes ==> p in ends)
    && (forall f :: f in files && files[f].kind.PipeEnd? ==>
      files[f].kind.pipe in ends && (ends[files[f].kind.pipe].0 == f || ends[files[f].kind.pipe].1 == f))
  }

  ghost function Put(tables: Tables, t: nat, i: nat, v: Slot): Tables
    requires t in tables && i < |tables[t]|
  {
    tables[t := tables[t][i := v]]
  }

  lemma PutTwice(tables: Tables, t: nat, i: nat, v: Slot, w: Slot)
    requires t in tables && i < |tables[t]|
    ensures Put(Put(tables, t, i, v), t, i, w) == Put(tables, t, i, w)
  {
    assert tables[t][i := v][i := w] == tables[t][i := w];
  }

  lemma PutBack(tables: Tables, t: nat, i: nat, v: Slot)
    requires t in tables && i < |tables[t]|
    ensures Put(Put(tables, t, i, v), t, i, tables[t][i]) == tables
  {
    assert tables[t][i := v][i := tables[t][i]] == tables[t];
  }

  /** What one descriptor's change does to the references of every file. */
  lemma PutRefs(tables: Tables, t: nat, i: nat, v: Slot, f: nat)
    requires Shaped(tables) && t in tables && i < SLOTS
    ensures Shaped(Put(tables, t, i, v))
    ensures Refs(Put(tables, t, i, v), f) == Refs(tables, f) - {(t, i)} + (if v == Some(f) then {(t, i)} else {})
  {
    var after := Put(tables, t, i, v);
    var expected := Refs(tables, f) - {(t, i)} + (if v == Some(f) then {(t, i)} else {});
    forall u, j
      ensures (u, j) in Refs(after, f) <==> (u, j) in expected
    {
      assert u in after && 0 <= j < SLOTS ==>
        after[u][j] == if (u, j) == (t, i) then v else tables[u][j];
    }
  }

  /** What one descriptor's change does to the number of references. */
  lemma PutSize(tables: Tables, t: nat, i: nat, v: Slot, f: nat)
    requires Shaped(tables) && t in tables && i < SLOTS
    ensures Shaped(Put(tables, t, i, v))
    ensures |Refs(Put(tables, t, i, v), f)| ==
      |Refs(tables, f)| - (if tables[t][i] == Some(f) then 1 else 0) + (if v == Some(f) then 1 else 0)
  {
    PutRefs(tables, t, i, v, f);
    assert (t, i) in Refs(tables, f) <==> tables[t][i] == Some(f);
    hide Refs;
  }

  lemma Unreferenced(tables: Tables, files: map<nat, File>, f: nat)
    requires Shaped(tables) && Known(tables, files) && f !in files
    ensures |Refs(tables, f)| == 0
  {
    assert Refs(tables, f) == {};
  }

  lemma NoneLeft(tables: Tables, t: nat, i: nat, f: nat)
    requires Shaped(tables) && t in tables && i < SLOTS && |Refs(tables, f)| == 0
    ensures tables[t][i] != Some(f)
  {
    assert (t, i) !in Refs(tables, f);
  }

  lemma SomeLeft(tables: Tables, t: nat, i: nat, f: nat)
    requires Shaped(tables) && t in tables && i < SLOTS && tables[t][i] == Some(f)
    ensures |Refs(tables, f)| >= 1
  {
    assert (t, i) in Refs(tables, f);
  }

  /** Filling an empty descriptor and counting it once keeps the counts right. */
  lemma PutCounted(tables: Tables, files: map<nat, File>, t: nat, i: nat, f: nat)
    requires Shaped(tables) && Counted(tables, files) && t in tables && i < SLOTS
    requires tables[t][i] == None && f in files
    ensures Shaped(Put(tables, t, i, Some(f)))
    ensures Counted(Put(tables, t, i, Some(f)), files[f := files[f].(count := files[f].count + 1)])
  {
    hide Refs;
    forall g | g in files
      ensures |Refs(Put(tables, t, i, Some(f)), g)| == files[g].count + (if g == f then 1 else 0)
    {
      PutSize(tables, t, i, Some(f), g);
    }
  }

  /** A new file behind an empty descriptor. */
  lemma PutNew(tables: Tables, files: map<nat, File>, t: nat, i: nat, f: nat, kind: Kind)
    requires Shaped(tables) && Counted(tables, files) && t in tables && i < SLOTS
    requires tables[t][i] == None && f !in files
    ensures Shaped(Put(tables, t, i, Some(f)))
    ensures Counted(Put(tables, t, i, Some(f)), files[f := File(1, kind)])
  {
    hide Refs;
    Unreferenced(tables, files, f);
    forall g | g in files || g == f
      ensures |Refs(Put(tables, t, i, Some(f)), g)| == if g == f then 1 else files[g].count
    {
      PutSize(tables, t, i, Some(f), g);
    }
  }

  /** Clearing a descriptor: the count goes down by one, and the file goes when it reaches zero. */
  lemma ClearCounted(tables: Tables, files: map<nat, File>, t: nat, i: nat, f: nat)
    requires Shaped(tables) && Counted(tables, files) && t in tables && i < SLOTS
    requires tables[t][i] == Some(f)
    ensures f in files && files[f].count >= 1
    ensures Shaped(Put(tables, t, i, None))
    ensures Counted(Put(tables, t, i, None), Uncounted(files, f))
  {
    hide Refs;
    var after: Tables := Put(tables, t, i, None);
    forall g | g in files
      ensures |Refs(after, g)| == files[g].count - (if g == f then 1 else 0)
    {
      PutSize(tables, t, i, None, g);
    }
    ClearKnown(tables, files, t, i, f);
  }

  lemma ClearKnown(tables: Tables, files: map<nat, File>, t: nat, i: nat, f: nat)
    requires Shaped(tables) && Known(tables, files) && t in tables && i < SLOTS && f in files
    requires Shaped(Put(tables, t, i, None))
    requires files[f].count == 1 ==> |Refs(Put(tables, t, i, None), f)| == 0
    ensures Known(Put(tables, t, i, None), Uncounted(files, f))
  {
    hide Refs;
    var after: Tables := Put(tables, t, i, None);
    forall u, j | u in after && 0 <= j < SLOTS && after[u][j].Some?
      ensures after[u][j].value in Uncounted(files, f)
    {
      if files[f].count == 1 {
        NoneLeft(after, u, j, f);
      }
    }
  }

  ghost function Uncounted(files: map<nat, File>, f: nat): map<nat, File>
    requires f in files
  {
    if files[f].count == 1 then files - {f} else files[f := files[f].(count := files[f].count - 1)]
  }

  //  Pipes

  /** What pipe_close does, before the count goes down. */
  ghost function ClosedPipes(files: map<nat, File>, pipes: map<nat, Pipe>, f: nat): map<nat, Pipe>
    requires f in files && (files[f].kind.PipeEnd? ==> files[f].kind.pipe in pipes)
  {
    if files[f].kind.Regular? then pipes
    else
      var p := files[f].kind.pipe;
      var q := if files[f].count != 1 then pipes[p]
               else if pipes[p].reader == Some(f) then pipes[p].(reader := None)
               else pipes[p].(writer := None);
      if q == Pipe(None, None) then pipes - {p} else pipes[p := q]
  }

  lemma PipeIsThere(files: map<nat, File>, pipes: map<nat, Pipe>, ends: Ends, f: nat)
    requires PipesOk(files, pipes, ends) && f in files && files[f].kind.PipeEnd?
    ensures var p := files[f].kind.pipe; p in pipes && p in ends && (pipes[p].reader == Some(f) || pipes[p].writer == Some(f))
  {
  }

  /** Closing a descriptor of a pipe end keeps pipes and ends in step. */
  lemma CloseKeepsPipes(files: map<nat, File>, pipes: map<nat, Pipe>, ends: Ends, f: nat)
    requires PipesOk(files, pipes, ends) && f in files
    requires files[f].kind.PipeEnd? ==> files[f].kind.pipe in pipes
    ensures PipesOk(Uncounted(files, f), ClosedPipes(files, pipes, f), ends)
  {
  }

  ghost predicate SameKinds(files: map<nat, File>, files': map<nat, File>) {
    files.Keys == files'.Keys && forall f :: f in files ==> files'[f].kind == files[f].kind
  }

  lemma SameKindsKeepPipes(files: map<nat, File>, files': map<nat, File>, pipes: map<nat, Pipe>, ends: Ends)
    requires PipesOk(files, pipes, ends) && SameKinds(files, files')
    ensures PipesOk(files', pipes, ends)
  {
  }

  ghost predicate Unused(ends: Ends, f: nat) {
    forall p :: p in ends ==> ends[p].0 != f && ends[p].1 != f
  }

  lemma NewRegularKeepsPipes(files: map<nat, File>, pipes: map<nat, Pipe>, ends: Ends, f: nat, count: int)
    requires PipesOk(files, pipes, ends) && f !in files && Unused(ends, f)
    ensures PipesOk(files[f := File(count, Regular)], pipes, ends)
  {
  }

  lemma NewPipeIsOk(files: map<nat, File>, pipes: map<nat, Pipe>, ends: Ends, p: nat, r: nat, w: nat)
    requires PipesOk(files, pipes, ends) && p !in ends && r != w
    requires r !in files && w !in files && Unused(ends, r) && Unused(ends, w)
    ensures PipesOk(files[r := File(1, PipeEnd(p))][w := File(1, PipeEnd(p))], pipes[p := Pipe(Some(r), Some(w))], ends[p := (r, w)])
  {
  }

  /** Everything that was allocated and is not there any more has been freed, once. */
  ghost predicate FreedOnce(freed: multiset<nat>, live: set<nat>, next: nat) {
    && (forall x :: x in live ==> x < next)
    && forall x: nat :: freed[x] == if x < next && x !in live then 1 else 0
  }

  ghost predicate EndsKnown(ends: Ends, nextFile: nat, nextPipe: nat) {
    && (forall p: nat :: p in ends <==> p < nextPipe)
    && forall p :: p in ends ==> ends[p].0 < nextFile && ends[p].1 < nextFile
  }

  /** The lowest free descriptor below a limit, or the limit. */
  ghost function FreeSlot(table: seq<Slot>, limit: nat): (i: nat)
    requires limit <= |table|
    ensures i <= limit && (i < limit ==> table[i].None?)
    ensures forall j :: 0 <= j < i ==> table[j].Some?
  {
    if limit == 0 then 0
    else
      var i := FreeSlot(table, limit - 1);
      if i < limit - 1 then i else if table[limit - 1].None? then limit - 1 else limit
  }

  lemma FreeSlotStep(table: seq<Slot>, i: nat)
    requires i < |table| && FreeSlot(table, i) == i
    ensures table[i].Some? ==> FreeSlot(table, i + 1) == i + 1
  {
  }

  lemma {:induction false} FreeSlotFound(table: seq<Slot>, i: nat, limit: nat)
    requires i < limit <= |table| && FreeSlot(table, i) == i && table[i].None?
    ensures FreeSlot(table, limit) == i
  {
    if limit > i + 1 {
      FreeSlotFound(table, i, limit - 1);
    }
  }

  /** Fewer than two free descriptors. */
  ghost predicate Full(table: seq<Slot>)
    requires |table| == SLOTS
  {
    var i := FreeSlot(table, SLOTS);
    i == SLOTS || FreeSlot(table[i := Some(0)], SLOTS) == SLOTS
  }

  lemma {:induction false} SameFreeSlots(s: seq<Slot>, t: seq<Slot>, limit: nat)
    requires limit <= |s| == |t| && forall i :: 0 <= i < |s| ==> s[i].None? == t[i].None?
    ensures FreeSlot(s, limit) == FreeSlot(t, limit)
  {
    if limit > 0 {
      SameFreeSlots(s, t, limit - 1);
    }
  }

  lemma SameFreeSlot(table: seq<Slot>, i: nat, f: nat)
    requires |table| == SLOTS && i < SLOTS
    ensures FreeSlot(table[i := Some(f)], SLOTS) == FreeSlot(table[i := Some(0)], SLOTS)
  {
    SameFreeSlots(table[i := Some(f)], table[i := Some(0)], SLOTS);
  }

  lemma FreshFile(ends: Ends, live: set<nat>, freed: multiset<nat>, nextFile: nat, nextPipe: nat)
    requires EndsKnown(ends, nextFile, nextPipe) && FreedOnce(freed, live, nextFile)
    ensures nextFile !in live && nextFile + 1 !in live && Unused(ends, nextFile) && Unused(ends, nextFile + 1)
    ensures nextPipe !in ends
  {
  }

  lemma OpenIsKnown(tables: Tables, files: map<nat, File>, t: nat, i: nat)
    requires Shaped(tables) && Counted(tables, files) && t in tables && i < SLOTS && tables[t][i].Some?
    ensures tables[t][i].value in files
  {
  }

  /** A file with two descriptors survives the closing of one of them. */
  lemma StillThere(tables: Tables, files: map<nat, File>, t: nat, i: nat, j: nat)
    requires Shaped(tables) && Counted(tables, files) && t in tables && i < SLOTS && j < SLOTS && i != j
    requires tables[t][i].Some? && tables[t][j].Some?
    ensures tables[t][i].value in files && tables[t][j].value in files
    ensures tables[t][i].value in Uncounted(files, tables[t][j].value)
  {
    var f := tables[t][i].value;
    if tables[t][j] == Some(f) {
      PutSize(tables, t, j, None, f);
      SomeLeft(Put(tables, t, j, None), t, i, f);
    }
  }

  lemma NewKey<V>(m: map<nat, V>, k: nat, v: V)
    ensures m[k := v].Keys == m.Keys + {k}
  {
  }

  lemma NewKeys<V>(m: map<nat, V>, k: nat, l: nat, v: V)
    ensures m[k := v][l := v].Keys == m.Keys + {k} + {l}
  {
  }

  lemma MadePipe(
    tables: Tables, files: map<nat, File>, pipes: map<nat, Pipe>, ends: Ends, t: nat, rd: nat, wr: nat, r: nat, p: nat)
    requires Shaped(tables) && Counted(tables, files) && PipesOk(files, pipes, ends)
    requires t in tables && rd < SLOTS && wr < SLOTS && rd != wr && tables[t][rd].None? && tables[t][wr].None?
    requires p !in ends && r !in files && r + 1 !in files && Unused(ends, r) && Unused(ends, r + 1)
    ensures Shaped(Put(Put(tables, t, rd, Some(r)), t, wr, Some(r + 1)))
    ensures Counted(Put(Put(tables, t, rd, Some(r)), t, wr, Some(r + 1)),
      files[r := File(1, PipeEnd(p))][r + 1 := File(1, PipeEnd(p))])
    ensures PipesOk(files[r := File(1, PipeEnd(p))][r + 1 := File(1, PipeEnd(p))],
      pipes[p := Pipe(Some(r), Some(r + 1))], ends[p := (r, r + 1)])
  {
    hide Counted, PipesOk;
    PutNew(tables, files, t, rd, r, PipeEnd(p));
    PutNew(Put(tables, t, rd, Some(r)), files[r := File(1, PipeEnd(p))], t, wr, r + 1, PipeEnd(p));
    NewPipeIsOk(files, pipes, ends, p, r, r + 1);
  }

  lemma FreedNew(freed: multiset<nat>, live: set<nat>, next: nat)
    requires FreedOnce(freed, live, next)
    ensures FreedOnce(freed, live + {next}, next + 1)
  {
  }

  lemma FreedAgain(freed: multiset<nat>, live: set<nat>, next: nat)
    requires FreedOnce(freed, live, next)
    ensures FreedOnce(freed + multiset{next}, live, next + 1)
  {
  }

  lemma MoreFiles(ends: Ends, nextFile: nat, nextPipe: nat)
    requires EndsKnown(ends, nextFile, nextPipe)
    ensures EndsKnown(ends, nextFile + 1, nextPipe)
  {
  }

  lemma MoreEnds(ends: Ends, nextFile: nat, nextPipe: nat)
    requires EndsKnown(ends, nextFile, nextPipe)
    ensures EndsKnown(ends[nextPipe := (nextFile, nextFile + 1)], nextFile + 2, nextPipe + 1)
  {
  }

  lemma PipeRecorded(
    files: map<nat, File>, pipes: map<nat, Pipe>, ends: Ends, freedFiles: multiset<nat>, freedPipes: multiset<nat>, r: nat, p: nat)
    requires FreedOnce(freedFiles, files.Keys, r) && FreedOnce(freedPipes, pipes.Keys, p) && EndsKnown(ends, r, p)
    ensures FreedOnce(freedFiles, files[r := File(1, PipeEnd(p))][r + 1 := File(1, PipeEnd(p))].Keys, r + 2)
    ensures FreedOnce(freedPipes, pipes[p := Pipe(Some(r), Some(r + 1))].Keys, p + 1)
    ensures EndsKnown(ends[p := (r, r + 1)], r + 2, p + 1)
  {
    hide FreedOnce, EndsKnown;
    NewKeys(files, r, r + 1, File(1, PipeEnd(p)));
    NewKey(pipes, p, Pipe(Some(r), Some(r + 1)));
    FreedNew(freedFiles, files.Keys, r);
    FreedNew(freedFiles, files.Keys + {r}, r + 1);
    FreedNew(freedPipes, pipes.Keys, p);
    MoreEnds(ends, r, p);
  }

  class FileTable {
    var tables: Tables
    var files: map<nat, File>
    var pipes: map<nat, Pipe>
    var nextFile: nat
    var nextPipe: nat
    ghost var ends: Ends
    ghost var freedFiles: multiset<nat>
    ghost var freedPipes: multiset<nat>

    ghost predicate Valid()
      reads this
    {
      && Shaped(tables)
      && Counted(tables, files)
      && PipesOk(files, pipes, ends)
      && EndsKnown(ends, nextFile, nextPipe)
      && FreedOnce(freedFiles, files.Keys, nextFile)
      && FreedOnce(freedPipes, pipes.Keys, nextPipe)
    }

    constructor ()
      ensures Valid() && tables == map[] && files == map[] && pipes == map[]
    {
      tables, files, pipes, nextFile, nextPipe := map[], map[], map[], 0, 0;
      ends, freedFiles, freedPipes := map[], multiset{}, multiset{};
    }

    ghost predicate IsOpen(task: nat, fd: int)
      requires task in tables && |tables[task]| == SLOTS
      reads this
    {
      0 <= fd <= MAX_OPEN_FILES && tables[task][fd].Some?
    }

    ghost predicate OnlyDescriptor(task: nat, fd: int)
      requires Shaped(tables) && task in tables
      reads this
    {
      IsOpen(task, fd) && |Refs(tables, tables[task][fd].value)| == 1
    }

    method PipeClose(f: nat)
      requires f in files && files[f].kind.PipeEnd? && files[f].kind.pipe in pipes
      requires var q := pipes[files[f].kind.pipe]; q.reader == Some(f) || q.writer == Some(f)
      requires FreedOnce(freedPipes, pipes.Keys, nextPipe)
      modifies this`pipes, this`freedPipes
      ensures pipes == ClosedPipes(files, old(pipes), f)
      ensures FreedOnce(freedPipes, pipes.Keys, nextPipe)
    {
      var p := files[f].kind.pipe;
      if pipes[p].reader == Some(f) {
        if files[f].count == 1 {
          pipes := pipes[p := pipes[p].(reader := None)];
        }
      } else {
        if files[f].count == 1 {
          pipes := pipes[p := pipes[p].(writer := None)];
        }
      }
      if pipes[p].reader.None? && pipes[p].writer.None? {
        pipes := pipes - {p};
        freedPipes := freedPipes + multiset{p};
        assert pipes == old(pipes) - {p};
      } else if files[f].count != 1 {
        assert old(pipes)[p := old(pipes)[p]] == old(pipes);
      }
    }

    /** do_close */
    method Close(task: nat, fd: int) returns (r: int)
      requires Valid() && task in tables
      modifies this
      ensures Valid()
      ensures old(IsOpen(task, fd)) ==> r == 0 && tables == Put(old(tables), task, fd, None)
      ensures old(IsOpen(task, fd)) && old(tables[task][fd].value) in old(files) ==>
        files == Uncounted(old(files), old(tables[task][fd].value))
      ensures !old(IsOpen(task, fd)) ==> r == EBADF && tables == old(tables) && files == old(files) && pipes == old(pipes)
      ensures ends == old(ends) && nextFile == old(nextFile) && nextPipe == old(nextPipe)
    {
      hide Counted, PipesOk, FreedOnce, Uncounted, ClosedPipes, EndsKnown;
      if fd < 0 || fd > MAX_OPEN_FILES || tables[task][fd].None? {
        return EBADF;
      }
      var f := tables[task][fd].value;
      ClearCounted(tables, files, task, fd, f);
      if files[f].count < 1 {
        return EBADF;
      }
      ghost var after := Uncounted(files, f);
      if files[f].kind.PipeEnd? {
        PipeIsThere(files, pipes, ends, f);
        CloseKeepsPipes(files, pipes, ends, f);
        PipeClose(f);
      } else {
        CloseKeepsPipes(files, pipes, ends, f);
        RegularClose(files, pipes, f);
      }
      tables := tables[task := tables[task][fd := None]];
      Drop(f);
      return 0;
    }

    /** The end of do_close: the count goes down, and the file is freed at zero. */
    method Drop(f: nat)
      requires f in files && FreedOnce(freedFiles, files.Keys, nextFile)
      modifies this`files, this`freedFiles
      ensures files == Uncounted(old(files), f)
      ensures FreedOnce(freedFiles, files.Keys, nextFile)
    {
      files := files[f := files[f].(count := files[f].count - 1)];
      if files[f].count == 0 {
        files := files - {f};
        freedFiles := freedFiles + multiset{f};
        assert files == old(files) - {f};
      }
    }

    method LowestFree(task: nat, limit: nat) returns (i: nat)
      requires task in tables && |tables[task]| == SLOTS && limit <= SLOTS
      ensures i == FreeSlot(tables[task], limit)
    {
      i := 0;
      while i < limit
        invariant i <= limit && FreeSlot(tables[task], i) == i
      {
        FreeSlotStep(tables[task], i);
        if tables[task][i].None? {
          FreeSlotFound(tables[task], i, limit);
          return;
        }
        i := i + 1;
      }
    }

    /** new_filp: the lowest free descriptor; without one the machine stops, and the result is -1. */
    method NewFilp(task: nat) returns (fd: int)
      requires task in tables && |tables[task]| == SLOTS
      modifies this`tables, this`files, this`nextFile
      ensures fd == -1 <==> FreeSlot(old(tables[task]), SLOTS) == SLOTS
      ensures fd == -1 ==> tables == old(tables) && files == old(files) && nextFile == old(nextFile)
      ensures fd != -1 ==> fd == FreeSlot(old(tables[task]), SLOTS)
      ensures fd != -1 ==> tables == Put(old(tables), task, fd, Some(old(nextFile)))
      ensures fd != -1 ==> files == old(files)[old(nextFile) := File(0, Regular)] && nextFile == old(nextFile) + 1
    {
      fd := LowestFree(task, SLOTS);
      if fd == SLOTS {
        return -1;
      }
      tables := tables[task := tables[task][fd := Some(nextFile)]];
      files := files[nextFile := File(0, Regular)];
      nextFile := nextFile + 1;
    }

    /** open() of what the path leads to. A false ok means that the machine stopped. */
    method Open(task: nat, lookup: Lookup, wantDirectory: bool) returns (fd: int, ok: bool)
      requires Valid() && task in tables
      modifies this
      ensures ok <==> FreeSlot(old(tables[task]), SLOTS) < (if Opens(lookup, wantDirectory) then SLOTS else MAX_OPEN_FILES)
      ensures ok ==> Valid() && pipes == old(pipes) && ends == old(ends)
      ensures ok && Opens(lookup, wantDirectory) ==>
                fd == FreeSlot(old(tables[task]), SLOTS)
                && tables == Put(old(tables), task, fd, Some(old(nextFile)))
                && files == old(files)[old(nextFile) := File(1, Regular)]
      ensures ok && !Opens(lookup, wantDirectory) ==>
                fd == (if lookup.Missing? then ENOENT else ENOTDIR) && tables == old(tables) && files == old(files)
    {
      hide Counted, PipesOk, EndsKnown, FreedOnce, FreeSlot;
      FreshFile(ends, files.Keys, freedFiles, nextFile, nextPipe);
      fd := NewFilp(task);
      if fd == -1 {
        return fd, false;
      }
      var f := nextFile - 1;
      if Opens(lookup, wantDirectory) {
        files := files[f := files[f].(count := files[f].count + 1)];
        assert files == old(files)[f := File(1, Regular)];
        PutNew(old(tables), old(files), task, fd, f, Regular);
        NewRegularKeepsPipes(old(files), pipes, ends, f, 1);
        assert files.Keys == old(files).Keys + {f};
        FreedNew(freedFiles, old(files).Keys, f);
        MoreFiles(ends, f, nextPipe);
        return fd, true;
      }
      if fd >= MAX_OPEN_FILES {
        return fd, false;
      }
      tables := tables[task := tables[task][fd := None]];
      files := files - {f};
      freedFiles := freedFiles + multiset{f};
      PutBack(old(tables), task, fd, Some(f));
      assert files == old(files);
      FreedAgain(old(freedFiles), files.Keys, f);
      MoreFiles(ends, f, nextPipe);
      return if lookup.Missing? then ENOENT else ENOTDIR, true;
    }

    /** The part of pipe() that counts the two ends and ties them to a new pipe. */
    method LinkPipe(r: nat, w: nat)
      requires r in files && w in files && r != w && files[r] == files[w] == File(0, Regular)
      modifies this`files, this`pipes, this`nextPipe, this`ends
      ensures files == old(files)[r := File(1, PipeEnd(old(nextPipe)))][w := File(1, PipeEnd(old(nextPipe)))]
      ensures pipes == old(pipes)[old(nextPipe) := Pipe(Some(r), Some(w))]
      ensures ends == old(ends)[old(nextPipe) := (r, w)] && nextPipe == old(nextPipe) + 1
    {
      files := files[r := files[r].(count := files[r].count + 1)];
      files := files[w := files[w].(count := files[w].count + 1)];
      pipes := pipes[nextPipe := Pipe(Some(r), Some(w))];
      files := files[r := files[r].(kind := PipeEnd(nextPipe))];
      files := files[w := files[w].(kind := PipeEnd(nextPipe))];
      ends := ends[nextPipe := (r, w)];
      nextPipe := nextPipe + 1;
    }

    /** pipe(); a false ok means that the machine stopped for want of two free descriptors. */
    method MakePipe(task: nat) returns (rd: int, wr: int, ok: bool)
      requires Valid() && task in tables
      modifies this
      ensures ok ==> Valid() && 0 <= rd < SLOTS && 0 <= wr < SLOTS && rd != wr
      ensures ok ==> rd == FreeSlot(old(tables[task]), SLOTS)
      ensures ok ==> wr == FreeSlot(old(tables[task])[rd := Some(0)], SLOTS)
      ensures ok ==> tables == Put(Put(old(tables), task, rd, Some(old(nextFile))), task, wr, Some(old(nextFile) + 1))
      ensures ok ==> ends == old(ends)[old(nextPipe) := (old(nextFile), old(nextFile) + 1)]
      ensures ok ==> pipes == old(pipes)[old(nextPipe) := Pipe(Some(old(nextFile)), Some(old(nextFile) + 1))]
      ensures !ok <==> Full(old(tables[task]))
    {
      hide Counted, PipesOk, EndsKnown, FreedOnce, FreeSlot;
      FreshFile(ends, files.Keys, freedFiles, nextFile, nextPipe);
      rd := NewFilp(task);
      if rd == -1 {
        return rd, rd, false;
      }
      wr := NewFilp(task);
      SameFreeSlot(old(tables[task]), rd, old(nextFile));
      if wr == -1 {
        return rd, wr, false;
      }
      ghost var r, w, p := nextFile - 2, nextFile - 1, nextPipe;
      LinkPipe(nextFile - 2, nextFile - 1);
      assert files == old(files)[r := File(1, PipeEnd(p))][w := File(1, PipeEnd(p))];
      MadePipe(old(tables), old(files), old(pipes), old(ends), task, rd, wr, r, p);
      PipeRecorded(old(files), old(pipes), old(ends), freedFiles, freedPipes, r, p);
      ok := true;
    }

    method Dup(task: nat, fd: int) returns (r: int)
      requires Valid() && task in tables
      modifies this
      ensures Valid() && pipes == old(pipes) && ends == old(ends)
      ensures SameKinds(old(files), files)
      ensures !old(IsOpen(task, fd)) ==> r == EBADF && tables == old(tables)
      ensures old(IsOpen(task, fd)) ==>
        r == (var i := FreeSlot(old(tables[task]), MAX_OPEN_FILES); if i < MAX_OPEN_FILES then i else EMFILE)
      ensures old(IsOpen(task, fd)) ==>
        tables == if r == EMFILE then old(tables) else Put(old(tables), task, r, old(tables[task][fd]))
    {
      hide Counted, PipesOk, EndsKnown, FreedOnce;
      if fd < 0 || fd > MAX_OPEN_FILES || tables[task][fd].None? {
        return EBADF;
      }
      var f := tables[task][fd].value;
      OpenIsKnown(tables, files, task, fd);
      var i := LowestFree(task, MAX_OPEN_FILES);
      if i == MAX_OPEN_FILES {
        return EMFILE;
      }
      Share(task, i, f);
      return i;
    }

    /** One more descriptor for a file, counted. */
    method Share(task: nat, i: nat, f: nat)
      requires Valid() && task in tables && i < SLOTS && tables[task][i].None? && f in files
      modifies this`tables, this`files
      ensures Valid() && tables == Put(old(tables), task, i, Some(f)) && SameKinds(old(files), files)
    {
      hide Counted, PipesOk, EndsKnown, FreedOnce;
      PutCounted(tables, files, task, i, f);
      tables := tables[task := tables[task][i := Some(f)]];
      files := files[f := files[f].(count := files[f].count + 1)];
      assert files.Keys == old(files).Keys;
      SameKindsKeepPipes(old(files), files, pipes, ends);
    }

    /**
     dup2(). A false ok means that a descriptor was left pointing at a freed file: that happens
     exactly when both descriptors are the same one and no other refers to its file.
     */
    method Dup2(task: nat, fd: int, fd2: int) returns (r: int, ok: bool)
      requires Valid() && task in tables
      modifies this
      ensures ok <==> !(fd == fd2 && 0 <= fd2 < MAX_OPEN_FILES && old(OnlyDescriptor(task, fd)))
      ensures ok ==> Valid() && ends == old(ends)
      ensures ok && (!(0 <= fd2 < MAX_OPEN_FILES) || !old(IsOpen(task, fd))) ==> r == EBADF && tables == old(tables)
      ensures ok && 0 <= fd2 < MAX_OPEN_FILES && old(IsOpen(task, fd)) ==>
        r == fd2 && tables == Put(old(tables), task, fd2, old(tables[task][fd]))
    {
      hide PipesOk, EndsKnown, FreedOnce, Refs;
      if fd2 < 0 || fd2 >= MAX_OPEN_FILES {
        return EBADF, true;
      }
      if fd < 0 || fd > MAX_OPEN_FILES || tables[task][fd].None? {
        return EBADF, true;
      }
      var f := tables[task][fd].value;
      OpenIsKnown(tables, files, task, fd);
      if tables[task][fd2].Some? {
        OpenIsKnown(tables, files, task, fd2);
        if fd != fd2 {
          StillThere(tables, files, task, fd, fd2);
        }
        var closed := Close(task, fd2);
      }
      if f !in files {
        tables := tables[task := tables[task][fd2 := Some(f)]];
        return fd2, false;
      }
      PutTwice(old(tables), task, fd2, None, Some(f));
      Share(task, fd2, f);
      return fd2, true;
    }

    /** The counting loop of fork, after the child's table was copied. */
    method CountCopies(child: nat, ghost tables0: Tables)
      requires Shaped(tables) && child in tables && child !in tables0 && tables == tables0[child := tables[child]]
      requires Shaped(tables0) && Counted(tables0, files) && PipesOk(files, pipes, ends)
      requires Known(tables, files)
      modifies this`files
      ensures Shaped(tables0[child := FirstSlots(tables[child], MAX_OPEN_FILES)])
      ensures Counted(tables0[child := FirstSlots(tables[child], MAX_OPEN_FILES)], files)
      ensures PipesOk(files, pipes, ends) && SameKinds(old(files), files)
    {
      hide Counted, PipesOk, Refs;
      ghost var table := tables[child];
      EmptyTableCounted(tables0, files, child);
      assert FirstSlots(table, 0) == NoSlots();
      for i := 0 to MAX_OPEN_FILES
        invariant Shaped(tables0[child := FirstSlots(table, i)])
        invariant Counted(tables0[child := FirstSlots(table, i)], files)
        invariant PipesOk(files, pipes, ends) && SameKinds(old(files), files)
      {
        assert table[i].Some? ==> table[i].value in old(files);
        ForkStep(tables0, files, child, table, i);
        if tables[child][i].Some? {
          var f := tables[child][i].value;
          ghost var before := files;
          files := files[f := files[f].(count := files[f].count + 1)];
          assert files.Keys == before.Keys;
          SameKindsKeepPipes(before, files, pipes, ends);
        }
      }
    }

    /** The descriptor table of a forked task; the counts are right exactly when the last slot is free. */
    method Fork(parent: nat, child: nat)
      requires Valid() && parent in tables && child !in tables
      modifies this
      ensures tables == old(tables)[child := old(tables)[parent]]
      ensures pipes == old(pipes) && ends == old(ends) && SameKinds(old(files), files)
      ensures Valid() <==> old(tables)[parent][MAX_OPEN_FILES].None?
    {
      hide Counted, PipesOk, EndsKnown, FreedOnce;
      ghost var before := tables;
      CopyKnown(tables, files, parent, child);
      tables := tables[child := tables[parent]];
      CountCopies(child, before);
      ForkDone(before, files, child, tables[child]);
    }

    /** The descriptors of a task that is destroyed. */
    method DestroyTask(task: nat)
      requires Valid() && task in tables
      modifies this
      ensures tables == old(tables) - {task} && ends == old(ends)
      ensures Valid() <==> old(tables)[task][MAX_OPEN_FILES].None?
    {
      hide Counted, PipesOk, EndsKnown, FreedOnce, Refs;
      for i := 0 to MAX_OPEN_FILES
        invariant Valid() && ends == old(ends)
        invariant tables.Keys == old(tables).Keys
        invariant tables - {task} == old(tables) - {task}
        invariant tables[task][MAX_OPEN_FILES] == old(tables)[task][MAX_OPEN_FILES]
        invariant forall j :: 0 <= j < i ==> tables[task][j].None?
      {
        if tables[task][i].Some? {
          var r := Close(task, i);
          assert r == 0 && tables[task][i].None?;
        }
      }
      DropTable(tables, files, task);
      tables := tables - {task};
    }

    /** A new task's table; a user task starts with three files of its own. */
    method CreateTask(task: nat, user: bool)
      requires Valid() && task !in tables
      modifies this
      ensures Valid() && pipes == old(pipes) && ends == old(ends)
      ensures !user ==> tables == old(tables)[task := NoSlots()] && files == old(files)
      ensures user ==> tables == old(tables)[task := NoSlots()[0 := Some(old(nextFile))][1 := Some(old(nextFile) + 1)][2 := Some(old(nextFile) + 2)]]
      ensures user ==> files == old(files)[old(nextFile) := File(1, Regular)][old(nextFile) + 1 := File(1, Regular)][old(nextFile) + 2 := File(1, Regular)]
    {
      hide Counted, PipesOk, EndsKnown, FreedOnce, Refs;
      EmptyTableCounted(tables, files, task);
      tables := tables[task := seq(SLOTS, i => None)];
      if user {
        AddFile(task, 0);
        AddFile(task, 1);
        AddFile(task, 2);
      }
    }

    /** A new file with one descriptor. */
    method AddFile(task: nat, fd: nat)
      requires Valid() && task in tables && fd < SLOTS && tables[task][fd].None?
      modifies this`tables, this`files, this`nextFile
      ensures Valid() && tables == Put(old(tables), task, fd, Some(old(nextFile)))
      ensures files == old(files)[old(nextFile) := File(1, Regular)] && nextFile == old(nextFile) + 1
    {
      hide Counted, PipesOk, EndsKnown, FreedOnce, Refs;
      FreshFile(ends, files.Keys, freedFiles, nextFile, nextPipe);
      PutNew(tables, files, task, fd, nextFile, Regular);
      NewRegularKeepsPipes(files, pipes, ends, nextFile, 1);
      NewKey(files, nextFile, File(1, Regular));
      FreedNew(freedFiles, files.Keys, nextFile);
      MoreFiles(ends, nextFile, nextPipe);
      files := files[nextFile := File(1, Regular)];
      tables := tables[task := tables[task][fd := Some(nextFile)]];
      nextFile := nextFile + 1;
    }
  }

  /** A file is there exactly while a descriptor refers to it. */
  lemma FileLifetime(tables: Tables, files: map<nat, File>, f: nat)
    requires Shaped(tables) && Counted(tables, files)
    ensures f in files <==> Refs(tables, f) != {}
  {
    if f !in files {
      Unreferenced(tables, files, f);
    }
  }

  /** A pipe's end pointer is set exactly while a descriptor refers to that end, and the pipe lives as long as either. */
  lemma PipeLifetime(tables: Tables, files: map<nat, File>, pipes: map<nat, Pipe>, ends: Ends, p: nat)
    requires Shaped(tables) && Counted(tables, files) && PipesOk(files, pipes, ends) && p in ends
    ensures p in pipes <==> Refs(tables, ends[p].0) != {} || Refs(tables, ends[p].1) != {}
    ensures p in pipes ==> (pipes[p].reader.Some? <==> Refs(tables, ends[p].0) != {})
    ensures p in pipes ==> (pipes[p].writer.Some? <==> Refs(tables, ends[p].1) != {})
  {
    hide Refs;
    FileLifetime(tables, files, ends[p].0);
    FileLifetime(tables, files, ends[p].1);
  }

  //  Whole tables: tasks that appear, fork and go

  ghost function NoSlots(): seq<Slot> {
    seq(SLOTS, i => None)
  }

  /** A table with only the first n descriptors filled in. */
  ghost function FirstSlots(table: seq<Slot>, n: nat): (r: seq<Slot>)
    requires |table| == SLOTS && n <= SLOTS
    ensures |r| == SLOTS
  {
    seq(SLOTS, i requires 0 <= i < SLOTS => if i < n then table[i] else None)
  }

  lemma EmptyTableCounted(tables: Tables, files: map<nat, File>, t: nat)
    requires Shaped(tables) && Counted(tables, files) && t !in tables
    ensures Shaped(tables[t := NoSlots()]) && Counted(tables[t := NoSlots()], files)
  {
    var after := tables[t := NoSlots()];
    forall f
      ensures Refs(after, f) == Refs(tables, f)
    {
    }
  }

  /** One step of fork's counting loop. */
  lemma ForkStep(tables: Tables, files: map<nat, File>, child: nat, table: seq<Slot>, i: nat)
    requires Shaped(tables) && |table| == SLOTS && i < SLOTS
    requires Shaped(tables[child := FirstSlots(table, i)])
    requires Counted(tables[child := FirstSlots(table, i)], files)
    requires table[i].Some? ==> table[i].value in files
    ensures Shaped(tables[child := FirstSlots(table, i + 1)])
    ensures Counted(tables[child := FirstSlots(table, i + 1)], Recounted(files, table[i]))
  {
    hide Counted, Refs;
    var before := tables[child := FirstSlots(table, i)];
    if table[i].Some? {
      PutCounted(before, files, child, i, table[i].value);
      assert FirstSlots(table, i)[i := table[i]] == FirstSlots(table, i + 1);
      assert Put(before, child, i, table[i]) == tables[child := FirstSlots(table, i + 1)];
    } else {
      assert FirstSlots(table, i) == FirstSlots(table, i + 1);
    }
  }

  ghost function Recounted(files: map<nat, File>, v: Slot): map<nat, File>
    requires v.Some? ==> v.value in files
  {
    if v.None? then files else files[v.value := files[v.value].(count := files[v.value].count + 1)]
  }

  /** The loop stops before the last descriptor, so the counts are right only when that one is free. */
  lemma ForkDone(tables: Tables, files: map<nat, File>, child: nat, table: seq<Slot>)
    requires Shaped(tables) && |table| == SLOTS
    requires Shaped(tables[child := FirstSlots(table, MAX_OPEN_FILES)])
    requires Counted(tables[child := FirstSlots(table, MAX_OPEN_FILES)], files)
    requires Shaped(tables[child := table])
    ensures Counted(tables[child := table], files) <==> table[MAX_OPEN_FILES].None?
  {
    hide Refs;
    var counted := tables[child := FirstSlots(table, MAX_OPEN_FILES)];
    var v := table[MAX_OPEN_FILES];
    assert FirstSlots(table, MAX_OPEN_FILES)[MAX_OPEN_FILES := v] == table;
    assert Put(counted, child, MAX_OPEN_FILES, v) == tables[child := table];
    if v.Some? {
      PutSize(counted, child, MAX_OPEN_FILES, v, v.value);
      assert tables[child := table][child][MAX_OPEN_FILES].value == v.value;
    } else {
      assert FirstSlots(table, MAX_OPEN_FILES) == table;
    }
  }

  lemma DropSize(tables: Tables, t: nat, f: nat)
    requires Shaped(tables) && t in tables
    requires forall i :: 0 <= i < MAX_OPEN_FILES ==> tables[t][i].None?
    ensures Shaped(tables - {t})
    ensures |Refs(tables - {t}, f)| == |Refs(tables, f)| - (if tables[t][MAX_OPEN_FILES] == Some(f) then 1 else 0)
  {
    assert Refs(tables - {t}, f) == Refs(tables, f) - {(t, MAX_OPEN_FILES)};
    assert (t, MAX_OPEN_FILES) in Refs(tables, f) <==> tables[t][MAX_OPEN_FILES] == Some(f);
  }

  /** Freeing a table keeps the counts right only when its last descriptor is free too. */
  lemma DropTable(tables: Tables, files: map<nat, File>, t: nat)
    requires Shaped(tables) && Counted(tables, files) && t in tables
    requires forall i :: 0 <= i < MAX_OPEN_FILES ==> tables[t][i].None?
    ensures Shaped(tables - {t})
    ensures Counted(tables - {t}, files) <==> tables[t][MAX_OPEN_FILES].None?
  {
    var after: Tables := tables - {t};
    var v := tables[t][MAX_OPEN_FILES];
    hide Refs;
    if v.Some? {
      DropSize(tables, t, v.value);
    } else {
      forall f | f in files
        ensures |Refs(after, f)| == files[f].count
      {
        DropSize(tables, t, f);
      }
    }
  }

  lemma CopyKnown(tables: Tables, files: map<nat, File>, parent: nat, child: nat)
    requires Shaped(tables) && Counted(tables, files) && parent in tables
    ensures Shaped(tables[child := tables[parent]]) && Known(tables[child := tables[parent]], files)
  {
  }

  lemma RegularClose(files: map<nat, File>, pipes: map<nat, Pipe>, f: nat)
    requires f in files && files[f].kind.Regular?
    ensures ClosedPipes(files, pipes, f) == pipes
  {
  }
}
