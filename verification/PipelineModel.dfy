/**
 Pipelines, programs and commands as values, and what it means to resolve a command list: every command that
 names a virtual pipeline comes to name the concrete pipeline of its key. Compilers and drivers are
 deterministic functions that may fail.
 */
module PipelineModel {
  import opened Wrappers

  datatype Status = Ok | Fail(code: int)

  const SLANG_FAIL: Status := Fail(-1)

  datatype Program = Base(id: nat, specializable: bool) | Specialized(base: Program, args: seq<int>)

  /** A virtual pipeline, one that was concrete from the start, or one created to make a virtual one concrete. */
  datatype Pipeline = Virtual(id: nat, program: Program) | Plain(id: nat)
                    | Created(serial: nat, origin: Pipeline, program: Program)

  /** PipelineKey: the arguments are left empty for programs that are not specializable. */
  datatype Key = Key(pipeline: Pipeline, args: seq<int>)

  datatype CommandKind = SetRenderState | SetComputeState | SetRayTracingState

  datatype Command = SetState(kind: CommandKind, pipeline: Option<Pipeline>, args: Option<seq<int>>) | Other(id: nat)

  datatype Preparation = Prepared(entryPoints: nat) | PrepareFailed(code: int)

  /** The foreign operations: specialization, reflection, compilation, module and pipeline creation. */
  datatype World = World(
    specialize: (Program, seq<int>) -> Status,
    prepare: Program -> Preparation,
    compile: (Program, nat) -> Status,
    install: Program -> Status,
    create: (Pipeline, Program) -> Status,
    onTaskPool: Pipeline -> bool,
    cpuDevice: bool)

  /** What is published: the shader cache, the virtual pipelines' own slots; and the next object identity. */
  datatype Published = Published(cache: map<Key, Pipeline>, slots: map<Pipeline, Pipeline>, nextSerial: nat)

  predicate IsSpecializable(p: Program) {
    p.Base? && p.specializable
  }

  /** The command names a virtual pipeline. */
  predicate Names(c: Command) {
    c.SetState? && c.pipeline.Some? && c.pipeline.value.Virtual?
  }

  predicate MissingArgs(c: Command) {
    Names(c) && IsSpecializable(c.pipeline.value.program) && c.args.None?
  }

  function KeyOf(c: Command): Key
    requires Names(c)
  {
    var p := c.pipeline.value;
    Key(p, if IsSpecializable(p.program) && c.args.Some? then c.args.value else [])
  }

  predicate ProperKey(k: Key) {
    k.pipeline.Virtual? && (!IsSpecializable(k.pipeline.program) ==> k.args == [])
  }

  /** The program a concrete pipeline for the key is built from. */
  function ProgramOf(k: Key): Program
    requires ProperKey(k)
  {
    if IsSpecializable(k.pipeline.program) then Specialized(k.pipeline.program, k.args) else k.pipeline.program
  }

  /** The concrete pipeline already known for a key. */
  function Lookup(d: Published, k: Key): Option<Pipeline>
    requires ProperKey(k)
  {
    if IsSpecializable(k.pipeline.program) then
      if k in d.cache then Some(d.cache[k]) else None
    else
      if k.pipeline in d.slots then Some(d.slots[k.pipeline]) else None
  }

  function Publish(d: Published, k: Key, c: Pipeline): Published
    requires ProperKey(k)
  {
    if IsSpecializable(k.pipeline.program) then d.(cache := d.cache[k := c])
    else d.(slots := d.slots[k.pipeline := c])
  }

  lemma PublishLookup(d: Published, k: Key, c: Pipeline)
    requires ProperKey(k)
    ensures Lookup(Publish(d, k, c), k) == Some(c)
    ensures forall k' :: ProperKey(k') && k' != k ==> Lookup(Publish(d, k, c), k') == Lookup(d, k')
    ensures Publish(d, k, c).nextSerial == d.nextSerial
  {
  }

  // ---------- The command list after resolution ----------

  /** A command naming a pipeline gives up its specialization arguments and names the concrete pipeline. */
  function Patch(c: Command, p: Pipeline): Command
    requires c.SetState?
  {
    SetState(c.kind, Some(p), None)
  }

  predicate HasPipeline(c: Command) {
    c.SetState? && c.pipeline.Some?
  }

  predicate IsPatched(d: Published, c: Command, c': Command) {
    if !HasPipeline(c) then c' == c
    else if !Names(c) then c' == Patch(c, c.pipeline.value)
    else Lookup(d, KeyOf(c)).Some? && c' == Patch(c, Lookup(d, KeyOf(c)).value)
  }

  /** The keys that commands name and that have no concrete pipeline yet. */
  function Unresolved(d: Published, cmds: seq<Command>): set<Key> {
    set i | 0 <= i < |cmds| && Names(cmds[i]) && Lookup(d, KeyOf(cmds[i])).None? :: KeyOf(cmds[i])
  }

  /** A concrete pipeline for the key, created in this run. */
  predicate FreshFor(d0: Published, d: Published, k: Key)
    requires ProperKey(k)
  {
    var c := Lookup(d, k);
    c.Some? && c.value.Created? && c.value.origin == k.pipeline && c.value.program == ProgramOf(k)
    && d0.nextSerial <= c.value.serial < d.nextSerial
  }

  /** Exactly these keys have gained a concrete pipeline, each its own, and nothing else has changed. */
  ghost predicate Extends(d0: Published, d: Published, keys: set<Key>) {
    && (forall k :: k in keys ==> ProperKey(k) && Lookup(d0, k).None? && FreshFor(d0, d, k))
    && (forall k :: ProperKey(k) && k !in keys ==> Lookup(d, k) == Lookup(d0, k))
    && (forall k, k' :: k in keys && k' in keys && k != k' ==> Lookup(d, k).value.serial != Lookup(d, k').value.serial)
    && d.nextSerial == d0.nextSerial + |keys|
  }

  /** What both paths achieve. */
  ghost predicate Resolved(d0: Published, cmds: seq<Command>, d: Published, cmds': seq<Command>) {
    && Extends(d0, d, Unresolved(d0, cmds))
    && |cmds'| == |cmds|
    && forall i :: 0 <= i < |cmds| ==> IsPatched(d, cmds[i], cmds'[i])
  }

  // ---------- When resolution succeeds ----------

  /** Programs whose specialization has been cached, and programs whose shaders have been compiled. */
  datatype Progress = Progress(specialized: set<(Program, seq<int>)>, compiled: set<Program>)

  predicate SpecializeOk(w: World, s: Progress, k: Key)
    requires ProperKey(k)
  {
    IsSpecializable(k.pipeline.program) ==>
      (k.pipeline.program, k.args) in s.specialized || w.specialize(k.pipeline.program, k.args) == Ok
  }

  predicate CompileOk(w: World, s: Progress, p: Program) {
    p in s.compiled || w.cpuDevice || BuildOk(w, p)
  }

  predicate BuildOk(w: World, p: Program) {
    && w.prepare(p).Prepared?
    && (forall j :: 0 <= j < w.prepare(p).entryPoints ==> w.compile(p, j) == Ok)
    && (w.prepare(p).entryPoints > 0 ==> w.install(p) == Ok)
  }

  predicate KeyOk(w: World, s: Progress, k: Key)
    requires ProperKey(k)
  {
    SpecializeOk(w, s, k) && CompileOk(w, s, ProgramOf(k)) && w.create(k.pipeline, ProgramOf(k)) == Ok
  }

  predicate Succeeds(w: World, s: Progress, d: Published, cmds: seq<Command>) {
    && (forall i :: 0 <= i < |cmds| ==> !MissingArgs(cmds[i]))
    && (forall i :: 0 <= i < |cmds| && Names(cmds[i]) && Lookup(d, KeyOf(cmds[i])).None? ==>
          KeyOk(w, s, KeyOf(cmds[i])))
  }

  /** The specializations that some keys ask for. */
  function Asked(keys: set<Key>): set<(Program, seq<int>)> {
    set k | k in keys && k.pipeline.Virtual? && IsSpecializable(k.pipeline.program) :: (k.pipeline.program, k.args)
  }

  /** The programs that pipelines for some keys are built from. */
  function Built(keys: set<Key>): set<Program> {
    set k | k in keys && ProperKey(k) :: ProgramOf(k)
  }

  /** Every specialization asked for is cached, and every program has been compiled. */
  function ProgressAfter(s: Progress, keys: set<Key>): Progress {
    Progress(s.specialized + Asked(keys), s.compiled + Built(keys))
  }

  lemma ProgressMore(s: Progress, keys: set<Key>, k: Key)
    requires ProperKey(k)
    ensures ProgressAfter(s, {}) == s && ProgressAfter(ProgressAfter(s, keys), {k}) == ProgressAfter(s, keys + {k})
    ensures ProgressAfter(s, {k}).compiled == s.compiled + {ProgramOf(k)}
    ensures ProgressAfter(s, {k}).specialized
         == s.specialized + if IsSpecializable(k.pipeline.program) then {(k.pipeline.program, k.args)} else {}
  {
    hide ProgramOf;
    assert Asked({}) == {} && Built({}) == {} && Built({k}) == {ProgramOf(k)};
    assert Asked({k}) == if IsSpecializable(k.pipeline.program) then {(k.pipeline.program, k.args)} else {};
    assert Asked(keys + {k}) == Asked(keys) + Asked({k});
    assert Built(keys + {k}) == Built(keys) + Built({k});
  }

  // ---------- In the commands' own terms ----------

  /** A pipeline made in this run for a virtual one. */
  predicate MadeFor(d0: Published, d: Published, origin: Pipeline, program: Program, p: Pipeline) {
    p.Created? && p.origin == origin && p.program == program && d0.nextSerial <= p.serial < d.nextSerial
  }

  /**
   What becomes of a command. One that names a pipeline keeps its kind and loses its arguments. A virtual pipeline whose
   program takes arguments is replaced by what the cache held for it and these arguments or, failing that, by a new
   pipeline for the program specialized with them, which the cache holds now. A virtual pipeline whose program takes
   none is replaced by what its own slot held or by a new pipeline for the program itself.
   */
  predicate Outcome(d0: Published, d: Published, c: Command, c': Command) {
    match c
    case Other(_) => c' == c
    case SetState(_, None, _) => c' == c
    case SetState(kind, Some(Virtual(id, Base(b, true))), Some(args)) =>
      var v := Virtual(id, Base(b, true));
      Key(v, args) in d.cache
      && c' == SetState(kind, Some(d.cache[Key(v, args)]), None)
      && if Key(v, args) in d0.cache then d.cache[Key(v, args)] == d0.cache[Key(v, args)]
         else MadeFor(d0, d, v, Specialized(Base(b, true), args), d.cache[Key(v, args)])
    case SetState(_, Some(Virtual(_, Base(_, true))), None) => true
    case SetState(kind, Some(Virtual(id, program)), _) =>
      var v := Virtual(id, program);
      v in d.slots
      && c' == SetState(kind, Some(d.slots[v]), None)
      && if v in d0.slots then d.slots[v] == d0.slots[v] else MadeFor(d0, d, v, program, d.slots[v])
    case SetState(kind, Some(p), _) => c' == SetState(kind, Some(p), None)
  }

  ghost predicate Outcomes(d0: Published, cmds: seq<Command>, d: Published, cmds': seq<Command>) {
    |cmds'| == |cmds| && forall i :: 0 <= i < |cmds| ==> Outcome(d0, d, cmds[i], cmds'[i])
  }

  lemma ResolvedOutcomes(d0: Published, cmds: seq<Command>, d: Published, cmds': seq<Command>)
    requires Resolved(d0, cmds, d, cmds')
    ensures Outcomes(d0, cmds, d, cmds')
  {
    forall i | 0 <= i < |cmds| ensures Outcome(d0, d, cmds[i], cmds'[i]) {
      assert IsPatched(d, cmds[i], cmds'[i]);
      if Names(cmds[i]) {
        if Lookup(d0, KeyOf(cmds[i])).None? {
          assert KeyOf(cmds[i]) in Unresolved(d0, cmds) && FreshFor(d0, d, KeyOf(cmds[i]));
        } else {
          assert KeyOf(cmds[i]) !in Unresolved(d0, cmds);
        }
      }
    }
  }

  /** New pipelines of programs that take arguments are shared exactly by equal pipelines with equal arguments. */
  lemma SharedByArguments(d0: Published, cmds: seq<Command>, d: Published, cmds': seq<Command>, i: nat, j: nat,
                          args: seq<int>, args': seq<int>)
    requires Resolved(d0, cmds, d, cmds') && i < |cmds| && j < |cmds| && cmds[i].SetState? && cmds[j].SetState?
    requires cmds[i].pipeline.Some? && cmds[i].pipeline.value.Virtual? && cmds[i].pipeline.value.program.Base?
    requires cmds[j].pipeline.Some? && cmds[j].pipeline.value.Virtual? && cmds[j].pipeline.value.program.Base?
    requires cmds[i].pipeline.value.program.specializable && cmds[j].pipeline.value.program.specializable
    requires cmds[i].args == Some(args) && Key(cmds[i].pipeline.value, args) !in d0.cache
    requires cmds[j].args == Some(args') && Key(cmds[j].pipeline.value, args') !in d0.cache
    ensures cmds'[i].SetState? && cmds'[j].SetState?
    ensures cmds'[i].pipeline == cmds'[j].pipeline <==> cmds[i].pipeline == cmds[j].pipeline && args == args'
  {
    ResolvedOutcomes(d0, cmds, d, cmds');
    SharedByKey(d0, cmds, d, cmds', i, j);
  }

  // ---------- Any two resolutions ----------

  /** Two pipelines agree up to the identity of the object that was created. */
  predicate SameUpToIdentity(p: Pipeline, q: Pipeline) {
    p == q || (p.Created? && q.Created? && p.origin == q.origin && p.program == q.program)
  }

  /** Serials are given out in order: an object that exists has one below the next. */
  predicate Exists(d: Published, p: Pipeline) {
    p.Created? ==> p.serial < d.nextSerial
  }

  predicate AllExist(d: Published, cmds: seq<Command>) {
    forall i :: 0 <= i < |cmds| && HasPipeline(cmds[i]) ==> Exists(d, cmds[i].pipeline.value)
  }

  /**
   Pipelines with programs that need no arguments keep their concrete pipeline in their own slot, the others in the
   cache under their keys, and what is kept exists and is never virtual. Every way of resolving keeps this.
   */
  predicate TablesProper(d: Published) {
    && (forall p :: p in d.slots ==>
          p.Virtual? && !IsSpecializable(p.program) && !d.slots[p].Virtual? && Exists(d, d.slots[p]))
    && (forall k :: k in d.cache ==>
          ProperKey(k) && IsSpecializable(k.pipeline.program) && !d.cache[k].Virtual? && Exists(d, d.cache[k]))
  }

  /** Later only more objects exist. */
  lemma ExistLater(d: Published, cmds: seq<Command>, n: nat)
    requires d.nextSerial <= n
    ensures TablesProper(d) ==> TablesProper(d.(nextSerial := n))
    ensures AllExist(d, cmds) ==> AllExist(d.(nextSerial := n), cmds)
  {
  }

  /** What a resolved list names exists. */
  lemma ResolvedExist(d0: Published, cmds: seq<Command>, d: Published, cmds': seq<Command>)
    requires Resolved(d0, cmds, d, cmds') && AllExist(d0, cmds) && TablesProper(d)
    ensures AllExist(d, cmds')
  {
    forall i | 0 <= i < |cmds'| && HasPipeline(cmds'[i]) ensures Exists(d, cmds'[i].pipeline.value) {
      assert IsPatched(d, cmds[i], cmds'[i]);
    }
  }

  /** The object that a command with an unresolved key comes to name is none that existed before. */
  lemma NewIsNew(d0: Published, cmds: seq<Command>, d: Published, cmds': seq<Command>, i: nat, p: Pipeline)
    requires Resolved(d0, cmds, d, cmds') && i < |cmds| && Names(cmds[i]) && Lookup(d0, KeyOf(cmds[i])).None?
    requires Exists(d0, p)
    ensures HasPipeline(cmds'[i]) && cmds'[i].pipeline != Some(p)
  {
    assert IsPatched(d, cmds[i], cmds'[i]);
    assert KeyOf(cmds[i]) in Unresolved(d0, cmds) && FreshFor(d0, d, KeyOf(cmds[i]));
  }

  /** The commands name the same object. */
  predicate Share(cmds: seq<Command>, i: nat, j: nat)
    requires i < |cmds| && j < |cmds|
  {
    HasPipeline(cmds[i]) && HasPipeline(cmds[j]) && cmds[i].pipeline == cmds[j].pipeline
  }

  /** What a command comes to name without any new object. */
  function KnownPipeline(d0: Published, c: Command): Option<Pipeline>
    requires HasPipeline(c)
  {
    if Names(c) then Lookup(d0, KeyOf(c)) else c.pipeline
  }

  /** Commands that share a key share the concrete pipeline; commands with different new keys do not. */
  lemma SharedByKey(d0: Published, cmds: seq<Command>, d: Published, cmds': seq<Command>, i: nat, j: nat)
    requires Resolved(d0, cmds, d, cmds') && i < |cmds| && j < |cmds|
    requires Names(cmds[i]) && Names(cmds[j]) && Lookup(d0, KeyOf(cmds[i])).None? && Lookup(d0, KeyOf(cmds[j])).None?
    ensures HasPipeline(cmds'[i]) && HasPipeline(cmds'[j])
    ensures cmds'[i].pipeline == cmds'[j].pipeline <==> KeyOf(cmds[i]) == KeyOf(cmds[j])
  {
    assert IsPatched(d, cmds[i], cmds'[i]) && IsPatched(d, cmds[j], cmds'[j]);
    assert KeyOf(cmds[i]) in Unresolved(d0, cmds) && KeyOf(cmds[j]) in Unresolved(d0, cmds);
  }

  /** The state before and the commands alone decide which commands share an object after resolution. */
  predicate WillShare(d0: Published, c: Command, c': Command) {
    && HasPipeline(c) && HasPipeline(c')
    && KnownPipeline(d0, c) == KnownPipeline(d0, c')
    && (KnownPipeline(d0, c).None? ==> KeyOf(c) == KeyOf(c'))
  }

  lemma SharingDecided(d0: Published, cmds: seq<Command>, d: Published, cmds': seq<Command>, i: nat, j: nat)
    requires Resolved(d0, cmds, d, cmds') && TablesProper(d0) && AllExist(d0, cmds) && i < |cmds| && j < |cmds|
    ensures Share(cmds', i, j) <==> WillShare(d0, cmds[i], cmds[j])
  {
    assert IsPatched(d, cmds[i], cmds'[i]) && IsPatched(d, cmds[j], cmds'[j]);
  }

  /**
   Any two resolutions of the same command list from the same state agree: same published keys, same number of
   objects created, every command names a pipeline of the same origin and program, and two commands share an
   object in one resolution exactly when they share it in the other.
   */
  lemma ResolutionsAgree(d0: Published, cmds: seq<Command>, d1: Published, cmds1: seq<Command>,
                         d2: Published, cmds2: seq<Command>)
    requires Resolved(d0, cmds, d1, cmds1) && Resolved(d0, cmds, d2, cmds2)
    requires TablesProper(d0) && AllExist(d0, cmds)
    ensures d1.nextSerial == d2.nextSerial == d0.nextSerial + |Unresolved(d0, cmds)|
    ensures forall k :: ProperKey(k) ==> (Lookup(d1, k).Some? <==> Lookup(d2, k).Some?)
    ensures forall k :: ProperKey(k) && Lookup(d1, k).Some? ==>
      SameUpToIdentity(Lookup(d1, k).value, Lookup(d2, k).value)
    ensures |cmds1| == |cmds2|
    ensures forall i :: 0 <= i < |cmds| ==> CommandsAgree(cmds1[i], cmds2[i])
    ensures forall i, j :: 0 <= i < |cmds| && 0 <= j < |cmds| ==> (Share(cmds1, i, j) <==> Share(cmds2, i, j))
  {
    hide TablesProper, AllExist, Share, WillShare;
    forall k | ProperKey(k)
      ensures Lookup(d1, k).Some? <==> Lookup(d2, k).Some?
      ensures Lookup(d1, k).Some? ==> SameUpToIdentity(Lookup(d1, k).value, Lookup(d2, k).value)
    {
      if k in Unresolved(d0, cmds) {
        assert FreshFor(d0, d1, k) && FreshFor(d0, d2, k);
      }
    }
    forall i | 0 <= i < |cmds| ensures CommandsAgree(cmds1[i], cmds2[i]) {
      assert IsPatched(d1, cmds[i], cmds1[i]) && IsPatched(d2, cmds[i], cmds2[i]);
    }
    forall i, j | 0 <= i < |cmds| && 0 <= j < |cmds| ensures Share(cmds1, i, j) <==> Share(cmds2, i, j) {
      SharingDecided(d0, cmds, d1, cmds1, i, j);
      SharingDecided(d0, cmds, d2, cmds2, i, j);
    }
  }

  predicate CommandsAgree(c: Command, c': Command) {
    c == c' || (HasPipeline(c) && HasPipeline(c') && c.kind == c'.kind && c.args == c'.args
                && SameUpToIdentity(c.pipeline.value, c'.pipeline.value))
  }

  /** After resolution no command names a virtual pipeline. */
  lemma ResolvedIsConcrete(d0: Published, cmds: seq<Command>, d: Published, cmds': seq<Command>)
    requires Resolved(d0, cmds, d, cmds') && TablesProper(d0)
    ensures forall i :: 0 <= i < |cmds'| ==> !Names(cmds'[i])
  {
    forall i | 0 <= i < |cmds'| ensures !Names(cmds'[i]) {
      assert IsPatched(d, cmds[i], cmds'[i]);
      if Names(cmds[i]) {
        var k := KeyOf(cmds[i]);
        if Lookup(d0, k).None? {
          assert k in Unresolved(d0, cmds) && FreshFor(d0, d, k);
        } else {
          assert k !in Unresolved(d0, cmds);
        }
      }
    }
  }

  /** A resolved list can be resolved again whatever the foreign operations say: there is nothing left to ask them. */
  lemma AgainSucceeds(w: World, s: Progress, d0: Published, cmds: seq<Command>, d1: Published, cmds1: seq<Command>)
    requires Resolved(d0, cmds, d1, cmds1) && TablesProper(d0)
    ensures Succeeds(w, s, d1, cmds1)
  {
    ResolvedIsConcrete(d0, cmds, d1, cmds1);
  }

  /** Resolving a resolved list again changes nothing and creates nothing. */
  lemma ResolvingAgain(d0: Published, cmds: seq<Command>, d1: Published, cmds1: seq<Command>,
                       d2: Published, cmds2: seq<Command>)
    requires Resolved(d0, cmds, d1, cmds1) && Resolved(d1, cmds1, d2, cmds2)
    requires TablesProper(d0) && TablesProper(d1) && TablesProper(d2)
    ensures cmds2 == cmds1 && d2 == d1
  {
    ResolvedIsConcrete(d0, cmds, d1, cmds1);
    assert Unresolved(d1, cmds1) == {};
    forall i | 0 <= i < |cmds1| ensures cmds2[i] == cmds1[i] {
      assert IsPatched(d1, cmds[i], cmds1[i]);
      assert IsPatched(d2, cmds1[i], cmds2[i]);
    }
    SameTables(d1, d2);
  }

  /** What lookup finds determines the tables. */
  lemma SameTables(d: Published, d': Published)
    requires TablesProper(d) && TablesProper(d') && forall k :: ProperKey(k) ==> Lookup(d', k) == Lookup(d, k)
    ensures d'.cache == d.cache && d'.slots == d.slots
  {
    forall k ensures (k in d'.cache <==> k in d.cache) && (k in d.cache ==> d'.cache[k] == d.cache[k]) {
      if k in d.cache || k in d'.cache {
        assert ProperKey(k) && Lookup(d', k) == Lookup(d, k);
      }
    }
    forall p ensures (p in d'.slots <==> p in d.slots) && (p in d.slots ==> d'.slots[p] == d.slots[p]) {
      if p in d.slots || p in d'.slots {
        assert ProperKey(Key(p, [])) && Lookup(d', Key(p, [])) == Lookup(d, Key(p, []));
      }
    }
  }
}
