/** The values the batched resolver keeps between its phases, and what one step of each phase does to them. */
module ResolverSteps {
  import PipelineDevice
  import opened PipelineModel
  import opened ResolverSpec
  import Sequences
  import opened Wrappers

  /** A request: one distinct key, the commands that name it and, in time, its pipeline. */
  datatype Request = Request(key: Key, commands: seq<nat>, program: Option<Program>, concrete: Option<Pipeline>,
                             result: Status, created: bool)

  /** A program to be compiled under its mutex; each entry point carries the result of its compilation. */
  datatype ProgramWork = ProgramWork(program: Program, locked: bool, entryPoints: seq<Status>)

  datatype Task = CompileTask(program: nat, entryPoint: nat) | CreateTask(request: nat)

  // ---------- Collected requests ----------

  /** A command that names a concrete pipeline gives up its arguments; collection touches no other. */
  function Settled(c: Command): Command {
    if HasPipeline(c) && !Names(c) then Patch(c, c.pipeline.value) else c
  }

  /** No command that names a virtual pipeline has been touched. */
  predicate Untouched(cmds: seq<Command>, cmds': seq<Command>) {
    |cmds'| == |cmds| && forall i :: 0 <= i < |cmds| ==> cmds'[i] == cmds[i] || cmds'[i] == Settled(cmds[i])
  }

  predicate AllSettled(cmds: seq<Command>, cmds': seq<Command>) {
    |cmds'| == |cmds| && forall i :: 0 <= i < |cmds| ==> cmds'[i] == Settled(cmds[i])
  }

  predicate IsRequest(d: Published, cmds: seq<Command>, k: Key, r: Request) {
    ProperKey(k) && r == Request(k, IndicesOf(cmds, k), None, Lookup(d, k), Ok, false)
  }

  predicate Collected(d: Published, cmds: seq<Command>, rs: seq<Request>) {
    |rs| == |RequestKeys(cmds)| && forall i :: 0 <= i < |rs| ==> IsRequest(d, cmds, RequestKeys(cmds)[i], rs[i])
  }

  lemma CollectSkip(d: Published, cmds: seq<Command>, rs: seq<Request>, c: Command)
    requires Collected(d, cmds, rs) && !Names(c)
    ensures Collected(d, cmds + [c], rs)
  {
    var more := cmds + [c];
    assert more[..|cmds|] == cmds;
    assert RequestKeys(more) == RequestKeys(cmds);
    forall i | 0 <= i < |rs| ensures IsRequest(d, more, RequestKeys(more)[i], rs[i]) {
      assert IsRequest(d, cmds, RequestKeys(cmds)[i], rs[i]);
      assert IndicesOf(more, rs[i].key) == IndicesOf(cmds, rs[i].key);
    }
  }

  lemma {:induction false} NoIndices(cmds: seq<Command>, k: Key)
    requires k !in RequestKeys(cmds)
    ensures IndicesOf(cmds, k) == []
  {
    if cmds != [] {
      NoIndices(cmds[..|cmds| - 1], k);
    }
  }

  lemma IndicesSnoc(cmds: seq<Command>, c: Command, k: Key)
    ensures IndicesOf(cmds + [c], k) == IndicesOf(cmds, k) + if Names(c) && KeyOf(c) == k then [|cmds|] else []
  {
    assert (cmds + [c])[..|cmds|] == cmds;
  }

  lemma CollectNew(d: Published, cmds: seq<Command>, rs: seq<Request>, c: Command)
    requires Collected(d, cmds, rs) && Names(c) && KeyOf(c) !in RequestKeys(cmds)
    ensures Collected(d, cmds + [c], rs + [Request(KeyOf(c), [|cmds|], None, Lookup(d, KeyOf(c)), Ok, false)])
  {
    hide Lookup, KeyOf, RequestKeys, IndicesOf;
    var more, k := cmds + [c], KeyOf(c);
    PipelineDevice.KeyIsProper(c);
    KeysSnoc(cmds, c);
    NoIndices(cmds, k);
    IndicesSnoc(cmds, c, k);
    forall i | 0 <= i < |rs| ensures IsRequest(d, more, RequestKeys(more)[i], rs[i]) {
      assert IsRequest(d, cmds, RequestKeys(cmds)[i], rs[i]);
      assert rs[i].key in RequestKeys(cmds);
      IndicesSnoc(cmds, c, rs[i].key);
    }
  }

  lemma CollectAgain(d: Published, cmds: seq<Command>, rs: seq<Request>, c: Command, at: nat)
    requires Collected(d, cmds, rs) && Names(c) && at < |rs| && rs[at].key == KeyOf(c)
    ensures Collected(d, cmds + [c], rs[at := rs[at].(commands := rs[at].commands + [|cmds|])])
  {
    var more, k := cmds + [c], KeyOf(c);
    var rs' := rs[at := rs[at].(commands := rs[at].commands + [|cmds|])];
    assert more[..|cmds|] == cmds;
    assert IsRequest(d, cmds, RequestKeys(cmds)[at], rs[at]);
    assert k in RequestKeys(cmds);
    assert RequestKeys(more) == RequestKeys(cmds);
    RequestKeysMeaning(cmds);
    forall i | 0 <= i < |rs'| ensures IsRequest(d, more, RequestKeys(more)[i], rs'[i]) {
      assert IsRequest(d, cmds, RequestKeys(cmds)[i], rs[i]);
      assert IndicesOf(more, rs[i].key) == IndicesOf(cmds, rs[i].key) + if i == at then [|cmds|] else [];
    }
  }

  lemma CollectedNone(d: Published, cmds: seq<Command>)
    requires cmds == []
    ensures Collected(d, cmds, []) && RequestKeys(cmds) == []
  {
  }

  lemma KeysSnoc(cmds: seq<Command>, c: Command)
    ensures RequestKeys(cmds + [c])
         == if Names(c) && KeyOf(c) !in RequestKeys(cmds) then RequestKeys(cmds) + [KeyOf(c)] else RequestKeys(cmds)
  {
    assert (cmds + [c])[..|cmds|] == cmds;
  }

  // ---------- Prepared programs ----------

  /** The first j requests without a pipeline know their program. */
  predicate Programmed(rs0: seq<Request>, j: nat, rs: seq<Request>) {
    |rs| == |rs0| && forall i :: 0 <= i < |rs0| ==>
      rs[i] == if i < j && rs0[i].concrete.None? && ProperKey(rs0[i].key)
               then rs0[i].(program := Some(ProgramOf(rs0[i].key))) else rs0[i]
  }

  function WorkPrograms(work: seq<ProgramWork>): seq<Program> {
    if work == [] then [] else WorkPrograms(work[..|work| - 1]) + [work[|work| - 1].program]
  }

  lemma {:induction false} WorkProgramsAt(work: seq<ProgramWork>)
    ensures |WorkPrograms(work)| == |work|
    ensures forall i :: 0 <= i < |work| ==> WorkPrograms(work)[i] == work[i].program
  {
    if work != [] {
      WorkProgramsAt(work[..|work| - 1]);
    }
  }

  /** One work item per program, with an uncompiled entry point for each one the program has to compile. */
  predicate WorkPrepared(w: World, s: Progress, programs: seq<Program>, work: seq<ProgramWork>) {
    WorkPrograms(work) == programs
    && forall i :: 0 <= i < |work| ==> work[i].locked && |work[i].entryPoints| == EntryPoints(w, s, work[i].program)
  }

  /** The held mutexes are those of the locked items; no program has two items. */
  ghost predicate LockState(work: seq<ProgramWork>, held: set<Program>) {
    && Sequences.NoDuplicates(WorkPrograms(work))
    && (forall i :: 0 <= i < |work| && work[i].locked ==> work[i].program in held)
    && forall p :: p in held ==> exists i :: 0 <= i < |work| && work[i].locked && work[i].program == p
  }

  lemma LockMore(work: seq<ProgramWork>, held: set<Program>, p: Program, entryPoints: seq<Status>)
    requires LockState(work, held) && p !in WorkPrograms(work)
    ensures p !in held
    ensures WorkPrograms(work + [ProgramWork(p, true, entryPoints)]) == WorkPrograms(work) + [p]
    ensures LockState(work + [ProgramWork(p, true, entryPoints)], held + {p})
  {
    hide WorkPrograms;
    var more := work + [ProgramWork(p, true, entryPoints)];
    WorkProgramsAt(work);
    WorkProgramsAt(more);
    assert WorkPrograms(more) == WorkPrograms(work) + [p];
    assert forall i :: 0 <= i < |work| ==> work[i].program == WorkPrograms(work)[i] != p;
    forall q | q in held + {p} ensures exists i :: 0 <= i < |more| && more[i].locked && more[i].program == q {
      if q == p {
        assert more[|work|].program == p;
      } else {
        var i :| 0 <= i < |work| && work[i].locked && work[i].program == q;
        assert more[i] == work[i];
      }
    }
  }

  lemma UnlockOne(work: seq<ProgramWork>, held: set<Program>, i: nat)
    requires LockState(work, held) && i < |work| && work[i].locked
    ensures WorkPrograms(work[i := work[i].(locked := false)]) == WorkPrograms(work)
    ensures LockState(work[i := work[i].(locked := false)], held - {work[i].program})
  {
    hide WorkPrograms;
    var less := work[i := work[i].(locked := false)];
    WorkProgramsAt(work);
    WorkProgramsAt(less);
    assert WorkPrograms(less) == WorkPrograms(work);
    forall q | q in held - {work[i].program}
      ensures exists j :: 0 <= j < |less| && less[j].locked && less[j].program == q
    {
      var j :| 0 <= j < |work| && work[j].locked && work[j].program == q;
      assert less[j] == work[j];
    }
    assert forall j :: 0 <= j < |work| && j != i ==> work[j].program == WorkPrograms(work)[j] != WorkPrograms(work)[i];
  }

  lemma {:induction false} FailureStays<T>(items: seq<T>, n: nat, result: T -> Status)
    requires n <= |items| && FirstFailureOf(items[..n], result) != Ok
    ensures FirstFailureOf(items, result) == FirstFailureOf(items[..n], result)
    decreases |items|
  {
    if n < |items| {
      var init := items[..|items| - 1];
      assert init[..n] == items[..n];
      FailureStays(init, n, result);
    } else {
      assert items[..n] == items;
    }
  }

  lemma {:induction false} PendingPrefix(d: Published, keys: seq<Key>, n: nat)
    requires n <= |keys| && forall k :: k in keys ==> ProperKey(k)
    ensures |Pending(d, keys[..n])| <= |Pending(d, keys)|
    ensures Pending(d, keys[..n]) == Pending(d, keys)[..|Pending(d, keys[..n])|]
    decreases |keys|
  {
    if n < |keys| {
      var init := keys[..|keys| - 1];
      assert init[..n] == keys[..n];
      PendingPrefix(d, init, n);
    } else {
      assert keys[..n] == keys;
    }
  }

  lemma PendingSnoc(d: Published, keys: seq<Key>, j: nat)
    requires j < |keys| && forall k :: k in keys ==> ProperKey(k)
    ensures Pending(d, keys[..j + 1]) == Pending(d, keys[..j]) + if Lookup(d, keys[j]).None? then [keys[j]] else []
  {
    assert keys[..j + 1][..j] == keys[..j];
  }

  lemma ProgramsSnoc(keys: seq<Key>, k: Key)
    requires ProperKey(k) && forall x :: x in keys ==> ProperKey(x)
    ensures ProgramsOf(keys + [k])
         == if ProgramOf(k) in ProgramsOf(keys) then ProgramsOf(keys) else ProgramsOf(keys) + [ProgramOf(k)]
  {
    assert (keys + [k])[..|keys|] == keys;
  }

  /** The first pending key that fails decides the status of a phase over the pending keys. */
  lemma PendingFails(d: Published, keys: seq<Key>, j: nat, result: Key -> Status)
    requires j < |keys| && (forall k :: k in keys ==> ProperKey(k)) && Lookup(d, keys[j]).None?
    requires FirstFailureOf(Pending(d, keys[..j]), result) == Ok && result(keys[j]) != Ok
    ensures FirstFailureOf(Pending(d, keys), result) == result(keys[j])
  {
    hide Lookup, FirstFailureOf, Pending;
    PendingSnoc(d, keys, j);
    FirstFailureOfSnoc(Pending(d, keys[..j]), keys[j], result);
    PendingPrefix(d, keys, j + 1);
    FailureStays(Pending(d, keys), |Pending(d, keys[..j + 1])|, result);
  }

  /** A program that an earlier key has brought in has been prepared without failure. */
  lemma PreparedBefore(w: World, s: Progress, keys: seq<Key>, p: Program)
    requires (forall k :: k in keys ==> ProperKey(k)) && p in ProgramsOf(keys)
    requires FirstFailureOf(keys, Preparing(w, s)) == Ok
    ensures p in s.compiled || w.prepare(p).Prepared?
  {
    ProgramsMeaning(keys);
    FirstFailureOfOk(keys, Preparing(w, s));
    var k :| k in keys && ProgramOf(k) == p;
    assert Preparing(w, s)(k) == Ok;
  }

  function PreparedStatus(p: Preparation): Status {
    match p
    case Prepared(_) => Ok
    case PrepareFailed(code) => Fail(code)
  }

  /** What getSpecializedProgram answers for a key's program and arguments. */
  function SpecializeStatus(w: World, s: Progress, k: Key): Status {
    if (k.pipeline.Virtual? && IsSpecializable(k.pipeline.program)) && (k.pipeline.program, k.args) !in s.specialized
    then w.specialize(k.pipeline.program, k.args) else Ok
  }

  lemma KeyPrepareInSteps(w: World, s0: Progress, s: Progress, k: Key)
    requires ProperKey(k) && PipelineDevice.Sound(w, s0, s) && s.compiled == s0.compiled
    ensures SpecializeStatus(w, s, k) != Ok ==> KeyPrepare(w, s0, k) == SpecializeStatus(w, s, k)
    ensures SpecializeStatus(w, s, k) == Ok ==>
      KeyPrepare(w, s0, k) == if ProgramOf(k) in s0.compiled then Ok else PreparedStatus(w.prepare(ProgramOf(k)))
  {
  }

  lemma PreparedMore(w: World, s: Progress, programs: seq<Program>, work: seq<ProgramWork>, p: Program, e: seq<Status>)
    requires WorkPrepared(w, s, programs, work) && |e| == EntryPoints(w, s, p)
    ensures WorkPrepared(w, s, programs + [p], work + [ProgramWork(p, true, e)])
  {
    assert (work + [ProgramWork(p, true, e)])[..|work|] == work;
  }

  lemma PrepareStart(w: World, s: Progress, d: Published, cmds: seq<Command>, rs: seq<Request>)
    requires Collected(d, cmds, rs)
    ensures |rs| == |RequestKeys(cmds)|
    ensures Pending(d, RequestKeys(cmds)[..0]) == [] && FirstFailureOf([], Preparing(w, s)) == Ok
    ensures ProgramsOf([]) == [] && WorkPrograms([]) == [] && WorkPrepared(w, s, [], [])
    ensures Programmed(rs, 0, rs) && LockState([], {}) && Asked(AsSet<Key>([])) == {}
  {
  }

  lemma RequestAt(d: Published, cmds: seq<Command>, rs0: seq<Request>, rs: seq<Request>, j: nat)
    requires Collected(d, cmds, rs0) && j < |rs0| && Programmed(rs0, j, rs)
    ensures |rs0| == |rs| == |RequestKeys(cmds)| && rs[j] == rs0[j] && rs[j].key == RequestKeys(cmds)[j]
    ensures rs[j].concrete == Lookup(d, RequestKeys(cmds)[j]) && ProperKey(RequestKeys(cmds)[j])
  {
    assert IsRequest(d, cmds, RequestKeys(cmds)[j], rs0[j]);
  }

  lemma ProgrammedSkip(rs0: seq<Request>, j: nat, rs: seq<Request>)
    requires j < |rs0| && Programmed(rs0, j, rs) && rs[j].concrete.Some?
    ensures Programmed(rs0, j + 1, rs)
  {
  }

  lemma ProgrammedNext(rs0: seq<Request>, j: nat, rs: seq<Request>, p: Program)
    requires j < |rs0| == |rs| && Programmed(rs0, j, rs) && rs[j].concrete.None? && ProperKey(rs[j].key)
    requires p == ProgramOf(rs[j].key)
    ensures Programmed(rs0, j + 1, rs[j := rs[j].(program := Some(p))])
  {
  }

  lemma ProgramOfKey(k: Key, p: Program)
    requires ProperKey(k)
    requires p == if IsSpecializable(k.pipeline.program) then Specialized(k.pipeline.program, k.args)
                  else k.pipeline.program
    ensures p == ProgramOf(k)
  {
  }

  lemma SoundSpecialized(w: World, s0: Progress, s: Progress, k: Key, s': Progress, status: Status)
    requires ProperKey(k) && IsSpecializable(k.pipeline.program)
    requires PipelineDevice.Sound(w, s0, s) && s'.compiled == s.compiled
    requires status == SpecializeStatus(w, s, k)
    requires s'.specialized == s.specialized + if status == Ok then {(k.pipeline.program, k.args)} else {}
    ensures PipelineDevice.Sound(w, s0, s')
  {
  }

  // ---------- Compilation tasks ----------

  predicate IsEntryPoint(work: seq<ProgramWork>, t: Task) {
    t.CompileTask? && t.program < |work| && t.entryPoint < |work[t.program].entryPoints|
  }

  /** Every entry point waits for its task or carries the result of its compilation. */
  ghost predicate Compiled(w: World, work: seq<ProgramWork>, todo: seq<Task>) {
    && (forall t :: t in todo ==> IsEntryPoint(work, t))
    && forall t :: IsEntryPoint(work, t) && t !in todo ==>
         work[t.program].entryPoints[t.entryPoint] == w.compile(work[t.program].program, t.entryPoint)
  }

  /** The items differ in the results of their entry points at most. */
  predicate SameItems(work: seq<ProgramWork>, work': seq<ProgramWork>) {
    |work'| == |work| && forall i :: 0 <= i < |work| ==>
      work'[i].program == work[i].program && work'[i].locked == work[i].locked
      && |work'[i].entryPoints| == |work[i].entryPoints|
  }

  function CompileResult(w: World, work: seq<ProgramWork>, t: Task): seq<ProgramWork>
    requires IsEntryPoint(work, t)
  {
    var item := work[t.program];
    work[t.program := item.(entryPoints := item.entryPoints[t.entryPoint := w.compile(item.program, t.entryPoint)])]
  }

  lemma CompileStep(w: World, work: seq<ProgramWork>, todo: seq<Task>, next: nat)
    requires next < |todo| && Compiled(w, work, todo)
    ensures IsEntryPoint(work, todo[next]) && SameItems(work, CompileResult(w, work, todo[next]))
    ensures Compiled(w, CompileResult(w, work, todo[next]), Sequences.Without(todo, next))
  {
    Sequences.WithoutMembers(todo, next);
    var work' := CompileResult(w, work, todo[next]);
    forall t | IsEntryPoint(work', t) && t !in Sequences.Without(todo, next)
      ensures work'[t.program].entryPoints[t.entryPoint] == w.compile(work'[t.program].program, t.entryPoint)
    {
      assert IsEntryPoint(work, t);
      assert t == todo[next] || t !in todo;
    }
  }

  lemma SameItemsTrans(a: seq<ProgramWork>, b: seq<ProgramWork>, c: seq<ProgramWork>)
    requires SameItems(a, b) && SameItems(b, c)
    ensures SameItems(a, c)
  {
  }

  lemma SameItemsKeep(w: World, s: Progress, programs: seq<Program>, work: seq<ProgramWork>, held: set<Program>,
                      work': seq<ProgramWork>)
    requires SameItems(work, work') && WorkPrepared(w, s, programs, work) && LockState(work, held)
    ensures WorkPrepared(w, s, programs, work') && LockState(work', held)
  {
    hide WorkPrograms, EntryPoints;
    WorkProgramsAt(work);
    WorkProgramsAt(work');
    assert WorkPrograms(work') == WorkPrograms(work);
    forall p | p in held ensures exists i :: 0 <= i < |work'| && work'[i].locked && work'[i].program == p {
      var i :| 0 <= i < |work| && work[i].locked && work[i].program == p;
      assert work'[i].program == p;
    }
  }

  /** Once no task is left, an item's results are those of its entry points in order. */
  lemma AllCompiled(w: World, s: Progress, programs: seq<Program>, work: seq<ProgramWork>)
    requires WorkPrepared(w, s, programs, work) && Compiled(w, work, [])
    ensures |programs| == |work|
    ensures forall i :: 0 <= i < |work| ==> programs[i] == work[i].program
    ensures forall i :: 0 <= i < |work| ==> FirstFailure(work[i].entryPoints) == ProgramCompile(w, s, programs[i])
  {
    hide FirstFailure, WorkPrograms, EntryPoints;
    WorkProgramsAt(work);
    forall i | 0 <= i < |work| ensures FirstFailure(work[i].entryPoints) == ProgramCompile(w, s, programs[i]) {
      var n := |work[i].entryPoints|;
      EntryResultsAt(w, programs[i], n);
      forall j | 0 <= j < n ensures work[i].entryPoints[j] == w.compile(programs[i], j) {
        var t := CompileTask(i, j);
        assert IsEntryPoint(work, t);
      }
      assert work[i].entryPoints == EntryResults(w, programs[i], n);
    }
  }

  lemma {:induction false} EntryResultsAt(w: World, p: Program, n: nat)
    ensures |EntryResults(w, p, n)| == n
    ensures forall j :: 0 <= j < n ==> EntryResults(w, p, n)[j] == w.compile(p, j)
  {
    if n > 0 {
      EntryResultsAt(w, p, n - 1);
    }
  }

  /** A program whose entry points compile and install without failure counts as compiled. */
  lemma InstalledOk(w: World, s: Progress, programs: seq<Program>, i: nat)
    requires i < |programs| && FirstFailureOf(programs, Compiling(w, s)) == Ok
    requires ProgramInstall(w, s, programs[i]) == Ok && EntryPoints(w, s, programs[i]) > 0
    ensures CompileOk(w, s, programs[i])
  {
    FirstFailureOfOk(programs, Compiling(w, s));
    assert Compiling(w, s)(programs[i]) == Ok;
    EntryResultsOk(w, programs[i], EntryPoints(w, s, programs[i]));
  }

  lemma SoundCompiled(w: World, s0: Progress, s: Progress, p: Program)
    requires PipelineDevice.Sound(w, s0, s) && CompileOk(w, s0, p)
    ensures PipelineDevice.Sound(w, s0, s.(compiled := s.compiled + {p}))
  {
  }

  lemma FailureAt<T>(items: seq<T>, i: nat, result: T -> Status)
    requires i < |items| && FirstFailureOf(items[..i], result) == Ok
    ensures FirstFailureOf(items[..i + 1], result) == result(items[i])
    ensures result(items[i]) != Ok ==> FirstFailureOf(items, result) == result(items[i])
  {
    FirstFailureOfSnoc(items[..i], items[i], result);
    assert items[..i] + [items[i]] == items[..i + 1];
    if result(items[i]) != Ok {
      FailureStays(items, i + 1, result);
    }
  }

  lemma SameItemsRefl(work: seq<ProgramWork>)
    ensures SameItems(work, work)
  {
  }

  lemma NoFailure<T>(items: seq<T>, result: T -> Status)
    ensures FirstFailureOf(items[..0], result) == Ok
  {
  }

  lemma NoResult(results: seq<Status>)
    ensures FirstFailure(results[..0]) == Ok
  {
  }

  lemma InstallOf(w: World, s: Progress, p: Program)
    ensures Installing(w, s)(p) == ProgramInstall(w, s, p) == if EntryPoints(w, s, p) == 0 then Ok else w.install(p)
  {
  }

  lemma LockedIsHeld(work: seq<ProgramWork>, held: set<Program>, i: nat)
    requires LockState(work, held) && i < |work| && work[i].locked
    ensures work[i].program in held
  {
  }

  lemma NothingHeld(work: seq<ProgramWork>, held: set<Program>)
    requires LockState(work, held) && forall i :: 0 <= i < |work| ==> !work[i].locked
    ensures held == {}
  {
    forall p ensures p !in held {
    }
  }

  // ---------- Creation ----------

  /** A request when its program is known: it lacks nothing but its pipeline. */
  function ReadyRequest(d: Published, cmds: seq<Command>, k: Key): Request
    requires ProperKey(k)
  {
    Request(k, IndicesOf(cmds, k), if Lookup(d, k).None? then Some(ProgramOf(k)) else None, Lookup(d, k), Ok, false)
  }

  predicate Ready(d: Published, cmds: seq<Command>, rs: seq<Request>) {
    |rs| == |RequestKeys(cmds)| && forall i :: 0 <= i < |rs| ==> rs[i] == ReadyRequest(d, cmds, RequestKeys(cmds)[i])
  }

  lemma ProgrammedIsReady(d: Published, cmds: seq<Command>, rs0: seq<Request>, rs: seq<Request>)
    requires Collected(d, cmds, rs0) && Programmed(rs0, |rs0|, rs)
    ensures Ready(d, cmds, rs)
  {
    hide IndicesOf, Lookup, ProgramOf, ProperKey;
    forall i | 0 <= i < |rs| ensures rs[i] == ReadyRequest(d, cmds, RequestKeys(cmds)[i]) {
      assert IsRequest(d, cmds, RequestKeys(cmds)[i], rs0[i]);
    }
  }

  /** The outcome of creating the pipeline of one request, with an object made between n0 and next. */
  predicate Tried(w: World, n0: nat, next: nat, b: Request, r: Request) {
    && b.concrete.None? && ProperKey(b.key)
    && r == b.(created := true, result := KeyCreate(w, b.key), concrete := r.concrete)
    && if r.result != Ok then r.concrete.None?
       else r.concrete.Some? && r.concrete.value.Created? && n0 <= r.concrete.value.serial < next
            && r.concrete.value == Created(r.concrete.value.serial, b.key.pipeline, ProgramOf(b.key))
  }

  function CreatedCount(rs: seq<Request>): nat {
    if rs == [] then 0 else CreatedCount(rs[..|rs| - 1]) + if rs[|rs| - 1].created then 1 else 0
  }

  predicate NewObject(r: Request) {
    r.created && r.concrete.Some? && r.concrete.value.Created?
  }

  /** Some requests have been tried; each success has its own new object, and no other object has been made. */
  ghost predicate Creation(w: World, n0: nat, next: nat, base: seq<Request>, rs: seq<Request>) {
    && |rs| == |base| && n0 <= next
    && (forall i :: 0 <= i < |rs| ==> !base[i].created && base[i].result == Ok)
    && (forall i :: 0 <= i < |rs| ==> if rs[i].created then Tried(w, n0, next, base[i], rs[i]) else rs[i] == base[i])
    && (forall i, j :: 0 <= i < j < |rs| && NewObject(rs[i]) && NewObject(rs[j]) ==>
          rs[i].concrete.value.serial != rs[j].concrete.value.serial)
    && ((forall i :: 0 <= i < |rs| ==> rs[i].result == Ok) ==> next == n0 + CreatedCount(rs))
  }

  lemma {:induction false} CountOneMore(rs: seq<Request>, i: nat, r: Request)
    requires i < |rs| && !rs[i].created && r.created
    ensures CreatedCount(rs[i := r]) == CreatedCount(rs) + 1
  {
    var n := |rs| - 1;
    if i == n {
      assert rs[i := r][..n] == rs[..n];
    } else {
      CountOneMore(rs[..n], i, r);
      assert rs[i := r][..n] == rs[..n][i := r];
    }
  }

  /** What creating one pipeline leaves in its request. */
  function TriedRequest(w: World, next: nat, b: Request): Request
    requires ProperKey(b.key)
  {
    var status := KeyCreate(w, b.key);
    b.(created := true, result := status,
       concrete := if status == Ok then Some(Created(next, b.key.pipeline, ProgramOf(b.key))) else None)
  }

  lemma CreateStep(w: World, n0: nat, next: nat, base: seq<Request>, rs: seq<Request>, i: nat)
    requires Creation(w, n0, next, base, rs) && i < |rs| && !rs[i].created
    requires rs[i].concrete.None? && ProperKey(rs[i].key)
    ensures Creation(w, n0, next + if KeyCreate(w, rs[i].key) == Ok then 1 else 0, base,
                     rs[i := TriedRequest(w, next, rs[i])])
  {
    hide CreatedCount, KeyCreate, ProgramOf;
    var r := TriedRequest(w, next, rs[i]);
    var next' := next + if KeyCreate(w, rs[i].key) == Ok then 1 else 0;
    var rs' := rs[i := r];
    CountOneMore(rs, i, r);
    assert Tried(w, n0, next', base[i], r);
    if forall j :: 0 <= j < |rs'| ==> rs'[j].result == Ok {
      forall j | 0 <= j < |rs| ensures rs[j].result == Ok {
        assert j != i ==> rs'[j] == rs[j];
      }
      assert rs'[i].result == Ok;
    }
  }

  lemma CreationStart(w: World, d: Published, cmds: seq<Command>, n: nat, rs: seq<Request>)
    requires Ready(d, cmds, rs)
    ensures Creation(w, n, n, rs, rs)
    ensures forall i :: 0 <= i < |rs| ==> ProperKey(rs[i].key)
  {
    NoneCreated(rs);
  }

  lemma {:induction false} NoneCreated(rs: seq<Request>)
    requires forall i :: 0 <= i < |rs| ==> !rs[i].created
    ensures CreatedCount(rs) == 0
  {
    if rs != [] {
      NoneCreated(rs[..|rs| - 1]);
    }
  }

  /** Every request that needed a pipeline has its own new one. */
  ghost predicate Made(w: World, d: Published, cmds: seq<Command>, base: seq<Request>, rs: seq<Request>, next: nat) {
    && Ready(d, cmds, base) && Creation(w, d.nextSerial, next, base, rs)
    && (forall i :: 0 <= i < |rs| ==> rs[i].result == Ok && (base[i].concrete.None? ==> rs[i].created))
  }

  lemma {:induction false} CreatedArePending(d: Published, keys: seq<Key>, rs: seq<Request>)
    requires (forall k :: k in keys ==> ProperKey(k)) && |rs| == |keys|
    requires forall i :: 0 <= i < |rs| ==> (rs[i].created <==> Lookup(d, keys[i]).None?)
    ensures CreatedCount(rs) == |Pending(d, keys)|
  {
    if rs != [] {
      CreatedArePending(d, keys[..|keys| - 1], rs[..|rs| - 1]);
    }
  }

  predicate Untried(base: seq<Request>, rs: seq<Request>, t: Task) {
    t.CreateTask? && t.request < |rs| == |base| && !rs[t.request].created && rs[t.request].concrete.None?
    && ProperKey(rs[t.request].key) && rs[t.request].program == Some(ProgramOf(rs[t.request].key))
  }

  lemma CreationShape(w: World, n0: nat, next: nat, base: seq<Request>, rs: seq<Request>)
    requires Creation(w, n0, next, base, rs)
    ensures |rs| == |base|
  {
  }

  lemma TriedIsCreated(w: World, next: nat, b: Request)
    requires ProperKey(b.key)
    ensures TriedRequest(w, next, b).created
  {
  }

  lemma AfterCreation(w: World, d: Published, cmds: seq<Command>, base: seq<Request>, rs: seq<Request>, next: nat)
    requires Ready(d, cmds, base) && Creation(w, d.nextSerial, next, base, rs)
    requires forall i :: 0 <= i < |rs| ==> rs[i].created == base[i].concrete.None?
    ensures |rs| == |RequestKeys(cmds)|
    ensures forall i :: 0 <= i < |rs| ==>
      rs[i].result == if Lookup(d, RequestKeys(cmds)[i]).None? then KeyCreate(w, RequestKeys(cmds)[i]) else Ok
    ensures (forall i :: 0 <= i < |rs| ==> rs[i].result == Ok) ==> Made(w, d, cmds, base, rs, next)
  {
    hide KeyCreate, Lookup, IndicesOf, ProgramOf, CreatedCount;
  }

  // ---------- Publication ----------

  /** The first j requests are published, and no key outside them has gained or lost a pipeline. */
  ghost predicate PublishedUpTo(d0: Published, rs: seq<Request>, j: nat, d: Published) {
    && j <= |rs| && (forall i :: 0 <= i < j ==> ProperKey(rs[i].key) && Lookup(d, rs[i].key) == rs[i].concrete)
    && forall k :: ProperKey(k) && (forall i :: 0 <= i < j ==> rs[i].key != k) ==> Lookup(d, k) == Lookup(d0, k)
  }

  /**
   The commands of the first j requests name their pipelines; no other command that names a virtual one is touched.
   */
  ghost predicate PatchedUpTo(cmds: seq<Command>, rs: seq<Request>, j: nat, cmds': seq<Command>) {
    && |cmds'| == |cmds| && j <= |rs|
    && forall c :: 0 <= c < |cmds| ==> cmds'[c] == NowPatched(cmds[c], rs[..j])
  }

  /** A command after the requests have been patched in: the last request with its key decides. */
  function NowPatched(c: Command, rs: seq<Request>): Command {
    if rs == [] then Settled(c)
    else
      var r := rs[|rs| - 1];
      if Names(c) && KeyOf(c) == r.key && r.concrete.Some? then Patch(c, r.concrete.value)
      else NowPatched(c, rs[..|rs| - 1])
  }

  lemma {:induction false} NowPatchedAt(c: Command, rs: seq<Request>, i: nat)
    requires i < |rs| && (forall j :: 0 <= j < |rs| && j != i ==> rs[j].key != rs[i].key)
    requires Names(c) && KeyOf(c) == rs[i].key && rs[i].concrete.Some?
    ensures NowPatched(c, rs) == Patch(c, rs[i].concrete.value)
  {
    if i < |rs| - 1 {
      NowPatchedAt(c, rs[..|rs| - 1], i);
    }
  }

  lemma {:induction false} NowPatchedElse(c: Command, rs: seq<Request>)
    requires !Names(c)
    ensures NowPatched(c, rs) == Settled(c)
  {
    if rs != [] {
      NowPatchedElse(c, rs[..|rs| - 1]);
    }
  }

  lemma PublishNext(d0: Published, rs: seq<Request>, j: nat, d: Published)
    requires PublishedUpTo(d0, rs, j, d) && j < |rs| && ProperKey(rs[j].key)
    requires forall i :: 0 <= i < j ==> rs[i].key != rs[j].key
    ensures rs[j].concrete.Some? && rs[j].created ==>
      PublishedUpTo(d0, rs, j + 1, Publish(d, rs[j].key, rs[j].concrete.value))
    ensures rs[j].concrete == Lookup(d0, rs[j].key) ==> PublishedUpTo(d0, rs, j + 1, d)
  {
    hide Lookup, Publish, ProperKey;
    if rs[j].concrete.Some? {
      PublishLookup(d, rs[j].key, rs[j].concrete.value);
    }
  }

  lemma PatchNext(cmds: seq<Command>, rs: seq<Request>, j: nat, cmds': seq<Command>, cmds'': seq<Command>)
    requires PatchedUpTo(cmds, rs, j, cmds') && j < |rs| && rs[j].concrete.Some?
    requires rs[j].commands == IndicesOf(cmds, rs[j].key) && |cmds''| == |cmds|
    requires forall c :: 0 <= c < |cmds| ==>
      cmds''[c] == if c in rs[j].commands then Patched(cmds'[c], rs[j].concrete.value) else cmds'[c]
    ensures PatchedUpTo(cmds, rs, j + 1, cmds'')
  {
    hide IndicesOf, KeyOf;
    IndicesMeaning(cmds, rs[j].key);
    assert rs[..j + 1][..j] == rs[..j];
    forall c | 0 <= c < |cmds| ensures cmds''[c] == NowPatched(cmds[c], rs[..j + 1]) {
      PatchedKind(cmds[c], rs[..j]);
      assert cmds'[c] == NowPatched(cmds[c], rs[..j]);
    }
  }

  /** patchCommand: only commands that set state carry a pipeline. */
  function Patched(c: Command, p: Pipeline): Command {
    if c.SetState? then Patch(c, p) else c
  }

  lemma {:induction false} PatchedKind(c: Command, rs: seq<Request>)
    ensures c.SetState? ==> NowPatched(c, rs).SetState? && NowPatched(c, rs).kind == c.kind
  {
    if rs != [] {
      PatchedKind(c, rs[..|rs| - 1]);
    }
  }

  /** Publishing and patching every request resolves the command list. */
  lemma FinalizedIsResolved(w: World, d0: Published, cmds: seq<Command>, base: seq<Request>, rs: seq<Request>,
                            d: Published, cmds': seq<Command>)
    requires Made(w, d0, cmds, base, rs, d.nextSerial)
    requires PublishedUpTo(d0, rs, |rs|, d) && PatchedUpTo(cmds, rs, |rs|, cmds')
    ensures Resolved(d0, cmds, d, cmds')
  {
    hide Lookup, KeyOf, RequestKeys, Unresolved, IndicesOf, CreatedCount, ProgramOf, KeyCreate, NowPatched, Pending;
    var keys := RequestKeys(cmds);
    RequestKeysMeaning(cmds);
    MadeShape(w, d0, cmds, base, rs, d.nextSerial);
    FinalizedExtends(w, d0, cmds, base, rs, d);
    assert rs[..|rs|] == rs;
    forall c | 0 <= c < |cmds| ensures IsPatched(d, cmds[c], cmds'[c]) {
      if Names(cmds[c]) {
        var i :| 0 <= i < |keys| && keys[i] == KeyOf(cmds[c]);
        NowPatchedAt(cmds[c], rs, i);
        assert Lookup(d, rs[i].key) == rs[i].concrete;
      } else {
        NowPatchedElse(cmds[c], rs);
      }
    }
  }

  lemma MadeShape(w: World, d0: Published, cmds: seq<Command>, base: seq<Request>, rs: seq<Request>, next: nat)
    requires Made(w, d0, cmds, base, rs, next)
    ensures |rs| == |RequestKeys(cmds)| && next == d0.nextSerial + CreatedCount(rs)
    ensures forall i :: 0 <= i < |rs| ==>
      rs[i].key == RequestKeys(cmds)[i] && rs[i].commands == IndicesOf(cmds, rs[i].key)
    ensures forall i :: 0 <= i < |rs| ==> rs[i].concrete.Some? && ProperKey(rs[i].key)
    ensures forall i :: 0 <= i < |rs| ==> rs[i].created == Lookup(d0, rs[i].key).None?
    ensures d0.nextSerial <= next
    ensures forall i :: 0 <= i < |rs| && rs[i].created ==>
      rs[i].concrete.value.Created? && rs[i].concrete.value.serial < next
    ensures forall i :: 0 <= i < |rs| && !rs[i].created ==> rs[i].concrete == Lookup(d0, rs[i].key)
  {
    hide Lookup, IndicesOf, CreatedCount, ProgramOf, KeyCreate, RequestKeys;
  }

  /** Every created request has a fresh object for its key, and its own. */
  lemma MadeFresh(w: World, d0: Published, cmds: seq<Command>, base: seq<Request>, rs: seq<Request>, d: Published)
    requires Made(w, d0, cmds, base, rs, d.nextSerial) && PublishedUpTo(d0, rs, |rs|, d)
    ensures forall i :: 0 <= i < |rs| && rs[i].created ==> NewObject(rs[i]) && FreshFor(d0, d, rs[i].key)
    ensures forall i, j :: 0 <= i < |rs| && 0 <= j < |rs| && i != j && NewObject(rs[i]) && NewObject(rs[j]) ==>
      rs[i].concrete.value.serial != rs[j].concrete.value.serial
  {
    hide Lookup, IndicesOf, CreatedCount, ProgramOf, KeyCreate, RequestKeys;
    forall i | 0 <= i < |rs| && rs[i].created ensures NewObject(rs[i]) && FreshFor(d0, d, rs[i].key) {
      assert Tried(w, d0.nextSerial, d.nextSerial, base[i], rs[i]);
    }
    forall i, j | 0 <= i < |rs| && 0 <= j < |rs| && i != j && NewObject(rs[i]) && NewObject(rs[j])
      ensures rs[i].concrete.value.serial != rs[j].concrete.value.serial
    {
      assert i < j || j < i;
    }
  }

  lemma FinalizedExtends(w: World, d0: Published, cmds: seq<Command>, base: seq<Request>, rs: seq<Request>,
                         d: Published)
    requires Made(w, d0, cmds, base, rs, d.nextSerial) && PublishedUpTo(d0, rs, |rs|, d)
    ensures Extends(d0, d, Unresolved(d0, cmds))
  {
    hide Lookup, KeyOf, RequestKeys, Unresolved, IndicesOf, CreatedCount, ProgramOf, KeyCreate, Pending, Made,
         FreshFor;
    var keys, unresolved := RequestKeys(cmds), Unresolved(d0, cmds);
    RequestKeysMeaning(cmds);
    MadeShape(w, d0, cmds, base, rs, d.nextSerial);
    MadeFresh(w, d0, cmds, base, rs, d);
    PendingMeaning(d0, keys);
    PendingIsUnresolved(d0, cmds);
    CreatedArePending(d0, keys, rs);
    forall k | k in unresolved
      ensures ProperKey(k) && Lookup(d0, k).None? && FreshFor(d0, d, k)
    {
      var i :| 0 <= i < |keys| && keys[i] == k;
      assert rs[i].key == k && rs[i].created;
    }
    forall k | ProperKey(k) && k !in unresolved ensures Lookup(d, k) == Lookup(d0, k) {
      if i :| 0 <= i < |keys| && keys[i] == k {
        assert rs[i].key == k && !rs[i].created;
      }
    }
    forall k, k' | k in unresolved && k' in unresolved && k != k'
      ensures Lookup(d, k).value.serial != Lookup(d, k').value.serial
    {
      var i :| 0 <= i < |keys| && keys[i] == k;
      var j :| 0 <= j < |keys| && keys[j] == k';
      assert NewObject(rs[i]) && NewObject(rs[j]) && Lookup(d, k) == rs[i].concrete && Lookup(d, k') == rs[j].concrete;
    }
  }

  // ---------- Between the phases ----------

  lemma AllUntried(d: Published, cmds: seq<Command>, rs: seq<Request>)
    requires Ready(d, cmds, rs)
    ensures forall t: Task :: t.CreateTask? && t.request < |rs| && rs[t.request].concrete.None? ==> Untried(rs, rs, t)
    ensures forall i :: 0 <= i < |rs| ==> !rs[i].created
  {
  }

  lemma CallersUntried(w: World, n0: nat, next: nat, base: seq<Request>, rs: seq<Request>, workers: seq<Task>,
                       callers: seq<Task>)
    requires Creation(w, n0, next, base, rs)
    requires forall t :: t in callers ==> Untried(base, base, t) && t !in workers
    requires forall i :: 0 <= i < |rs| ==> rs[i].created == (CreateTask(i) in workers)
    ensures forall t :: t in callers ==> Untried(base, rs, t)
  {
    hide ProgramOf, KeyCreate, ProperKey, CreatedCount;
    forall t | t in callers ensures Untried(base, rs, t) {
      assert t == CreateTask(t.request);
    }
  }

  lemma PendingNone(d: Published, keys: seq<Key>, result: Key -> Status)
    requires forall k :: k in keys ==> ProperKey(k)
    ensures FirstFailureOf(Pending(d, keys[..0]), result) == Ok
  {
  }

  lemma FinalizeStart(d0: Published, cmds: seq<Command>, rs: seq<Request>, d: Published, cmds': seq<Command>)
    requires d == d0.(nextSerial := d.nextSerial) && AllSettled(cmds, cmds')
    ensures PublishedUpTo(d0, rs, 0, d) && PatchedUpTo(cmds, rs, 0, cmds')
  {
    PipelineDevice.SerialIsNoKey(d0, d.nextSerial);
  }

  lemma PublishKeeps(d: Published, k: Key, c: Pipeline)
    requires ProperKey(k) && TablesProper(d) && !c.Virtual? && Exists(d, c)
    ensures TablesProper(Publish(d, k, c)) && Publish(d, k, c).nextSerial == d.nextSerial
  {
  }

  lemma NothingYet(w: World, s: Progress, acquired: seq<Program>)
    ensures LockState([], {}) && PipelineDevice.Sound(w, s, s)
    ensures Sequences.NoDuplicates<Program>([]) && acquired == acquired + []
  {
  }

  lemma SettledIsUntouched(cmds: seq<Command>, cmds': seq<Command>)
    requires AllSettled(cmds, cmds')
    ensures Untouched(cmds, cmds')
  {
  }

  lemma TakenOnce(work: seq<ProgramWork>, held: set<Program>)
    requires LockState(work, held)
    ensures Sequences.NoDuplicates(WorkPrograms(work))
  {
  }

  /** What an untouched or settled list names is what it named. */
  lemma UntouchedExist(d: Published, cmds: seq<Command>, cmds': seq<Command>)
    requires Untouched(cmds, cmds') && AllExist(d, cmds)
    ensures AllExist(d, cmds')
  {
  }

  lemma PhasesInOrder(w: World, s: Progress, keys: seq<Key>)
    requires forall k :: k in keys ==> ProperKey(k)
    ensures var prepared, compiled, installed := FirstFailureOf(keys, Preparing(w, s)),
              FirstFailureOf(ProgramsOf(keys), Compiling(w, s)), FirstFailureOf(ProgramsOf(keys), Installing(w, s));
      PhasesStatus(w, s, keys) == if prepared != Ok then prepared else if compiled != Ok then compiled
                                  else if installed != Ok then installed else FirstFailureOf(keys, Creating(w))
  {
  }
}
