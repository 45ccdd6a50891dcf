/** The device's serial way to a concrete pipeline: look up, specialize, compile, create, publish. */
module PipelineDevice {
  import opened PipelineModel
  import opened Wrappers

  /** Later progress is earlier progress plus what the foreign operations have allowed. */
  ghost predicate Sound(w: World, s0: Progress, s: Progress) {
    && s0.specialized <= s.specialized && s0.compiled <= s.compiled
    && (forall x :: x in s.specialized && x !in s0.specialized ==> w.specialize(x.0, x.1) == Ok)
    && (forall p :: p in s.compiled && p !in s0.compiled ==> CompileOk(w, s0, p))
  }

  /** Whether a key can be served does not depend on what has been specialized or compiled on the way. */
  lemma SoundKeyOk(w: World, s0: Progress, s: Progress, k: Key)
    requires Sound(w, s0, s) && ProperKey(k)
    ensures KeyOk(w, s, k) == KeyOk(w, s0, k)
    ensures SpecializeOk(w, s, k) == SpecializeOk(w, s0, k)
    ensures CompileOk(w, s, ProgramOf(k)) == CompileOk(w, s0, ProgramOf(k))
  {
  }

  // ---------- What the device answers ----------

  /** The first failure among the first entry points. */
  function EntryStatus(w: World, p: Program, n: nat): Status {
    if n == 0 then Ok else if EntryStatus(w, p, n - 1) != Ok then EntryStatus(w, p, n - 1) else w.compile(p, n - 1)
  }

  /** Preparation, compilation of every entry point and, if there is one, installation: the first failure decides. */
  function BuildStatus(w: World, p: Program): Status {
    match w.prepare(p)
    case PrepareFailed(code) => Fail(code)
    case Prepared(n) => if EntryStatus(w, p, n) != Ok then EntryStatus(w, p, n) else if n > 0 then w.install(p) else Ok
  }

  function CompileStatus(w: World, s: Progress, p: Program): Status {
    if p in s.compiled || w.cpuDevice then Ok else BuildStatus(w, p)
  }

  /** Specialization if the program takes arguments, compilation, creation: the first failure decides. */
  function ServeStatus(w: World, s: Progress, k: Key): Status
    requires ProperKey(k)
  {
    var p := k.pipeline.program;
    if IsSpecializable(p) && (p, k.args) !in s.specialized && w.specialize(p, k.args) != Ok then w.specialize(p, k.args)
    else if CompileStatus(w, s, ProgramOf(k)) != Ok then CompileStatus(w, s, ProgramOf(k))
    else w.create(k.pipeline, ProgramOf(k))
  }

  /** What has been specialized and compiled after that, step by step up to the first failure. */
  function ServeProgress(w: World, s: Progress, k: Key): Progress
    requires ProperKey(k)
  {
    if !SpecializeOk(w, s, k) then s
    else
      var s' := if IsSpecializable(k.pipeline.program)
                then s.(specialized := s.specialized + {(k.pipeline.program, k.args)}) else s;
      if CompileStatus(w, s, ProgramOf(k)) != Ok then s' else s'.(compiled := s'.compiled + {ProgramOf(k)})
  }

  lemma ServedProgress(w: World, s: Progress, k: Key)
    requires ProperKey(k) && ServeStatus(w, s, k) == Ok
    ensures ServeProgress(w, s, k) == ProgressAfter(s, {k})
  {
    hide CompileStatus, ProgramOf, Asked, Built;
    ProgressMore(s, {}, k);
  }

  /** What one command answers if all before it have been served. */
  function CommandStatus(w: World, s: Progress, d: Published, c: Command): Status {
    if MissingArgs(c) then SLANG_FAIL
    else if Names(c) && Lookup(d, KeyOf(c)).None? then ServeStatus(w, s, KeyOf(c)) else Ok
  }

  /** The first command that fails decides. */
  function SerialStatus(w: World, s: Progress, d: Published, cmds: seq<Command>): Status {
    if cmds == [] then Ok
    else
      var n := |cmds| - 1;
      var r := SerialStatus(w, s, d, cmds[..n]);
      if r != Ok then r else CommandStatus(w, s, d, cmds[n])
  }

  lemma {:induction false} EntryStatusOk(w: World, p: Program, n: nat)
    ensures EntryStatus(w, p, n) == Ok <==> forall j :: 0 <= j < n ==> w.compile(p, j) == Ok
  {
    if n > 0 {
      EntryStatusOk(w, p, n - 1);
    }
  }

  /** A failure among the first entry points is the answer of all of them. */
  lemma {:induction false} EntryStatusStays(w: World, p: Program, j: nat, n: nat)
    requires j <= n && EntryStatus(w, p, j) != Ok
    ensures EntryStatus(w, p, n) == EntryStatus(w, p, j)
    decreases n
  {
    if j < n {
      EntryStatusStays(w, p, j, n - 1);
    }
  }

  lemma CompileStatusOk(w: World, s: Progress, p: Program)
    ensures CompileStatus(w, s, p) == Ok <==> CompileOk(w, s, p)
  {
    if w.prepare(p).Prepared? {
      EntryStatusOk(w, p, w.prepare(p).entryPoints);
    }
  }

  lemma ServeStatusOk(w: World, s: Progress, k: Key)
    requires ProperKey(k)
    ensures ServeStatus(w, s, k) == Ok <==> KeyOk(w, s, k)
  {
    CompileStatusOk(w, s, ProgramOf(k));
  }

  /** What a key is answered does not depend on what has been specialized or compiled on the way. */
  lemma SoundStatus(w: World, s0: Progress, s: Progress, k: Key)
    requires Sound(w, s0, s) && ProperKey(k)
    ensures ServeStatus(w, s, k) == ServeStatus(w, s0, k)
  {
    hide BuildStatus;
    CompileStatusOk(w, s0, ProgramOf(k));
    CompileStatusOk(w, s, ProgramOf(k));
  }

  lemma SerialSnoc(w: World, s: Progress, d: Published, cmds: seq<Command>, i: nat)
    requires i < |cmds| && SerialStatus(w, s, d, cmds[..i]) == Ok
    ensures SerialStatus(w, s, d, cmds[..i + 1]) == CommandStatus(w, s, d, cmds[i])
  {
    assert cmds[..i + 1][..i] == cmds[..i];
  }

  /** Once a command has failed the rest does not matter. */
  lemma {:induction false} SerialStays(w: World, s: Progress, d: Published, cmds: seq<Command>, i: nat)
    requires i <= |cmds| && SerialStatus(w, s, d, cmds[..i]) != Ok
    ensures SerialStatus(w, s, d, cmds) == SerialStatus(w, s, d, cmds[..i])
    decreases |cmds|
  {
    if i == |cmds| {
      assert cmds[..i] == cmds;
    } else {
      assert cmds[..|cmds| - 1][..i] == cmds[..i];
      SerialStays(w, s, d, cmds[..|cmds| - 1], i);
    }
  }

  // ---------- One more command ----------

  lemma UnresolvedSnoc(d: Published, cmds: seq<Command>, c: Command)
    ensures Unresolved(d, cmds + [c])
         == Unresolved(d, cmds) + if Names(c) && Lookup(d, KeyOf(c)).None? then {KeyOf(c)} else {}
  {
    var more := cmds + [c];
    forall k
      ensures k in Unresolved(d, more)
              <==> (k in Unresolved(d, cmds) || (Names(c) && Lookup(d, KeyOf(c)).None? && k == KeyOf(c)))
    {
      if k in Unresolved(d, cmds) {
        var i :| 0 <= i < |cmds| && Names(cmds[i]) && Lookup(d, KeyOf(cmds[i])).None? && KeyOf(cmds[i]) == k;
        assert more[i] == cmds[i];
      }
      if Names(c) && Lookup(d, KeyOf(c)).None? && k == KeyOf(c) {
        assert more[|cmds|] == c;
      }
    }
  }

  /** A command that needs no new pipeline. */
  lemma ResolvedKnown(d0: Published, cmds: seq<Command>, d: Published, cmds': seq<Command>, c: Command, c': Command)
    requires Resolved(d0, cmds, d, cmds') && IsPatched(d, c, c')
    ensures Resolved(d0, cmds + [c], d, cmds' + [c'])
  {
    hide Unresolved, KeyOf, Lookup, ProperKey, FreshFor;
    UnresolvedSnoc(d0, cmds, c);
    if Names(c) {
      KeyIsProper(c);
      if Lookup(d0, KeyOf(c)).None? {
        assert KeyOf(c) in Unresolved(d0, cmds);
      }
    }
    assert Unresolved(d0, cmds + [c]) == Unresolved(d0, cmds);
  }

  /** A key without a pipeline is not among those that have gained one. */
  lemma NotAmong(d0: Published, d: Published, keys: set<Key>, k: Key)
    requires Extends(d0, d, keys) && ProperKey(k) && Lookup(d, k).None?
    ensures k !in keys && Lookup(d0, k).None?
  {
    forall x | x in keys ensures x != k {
      assert FreshFor(d0, d, x);
    }
  }

  /** Publishing a new object for a key that has none. */
  lemma ExtendsMore(d0: Published, d: Published, keys: set<Key>, k: Key)
    requires Extends(d0, d, keys) && ProperKey(k) && Lookup(d, k).None?
    ensures Extends(d0, Publish(d.(nextSerial := d.nextSerial + 1), k, Created(d.nextSerial, k.pipeline, ProgramOf(k))),
                    keys + {k})
  {
    hide Publish, Lookup, ProgramOf, ProperKey;
    var d1 := d.(nextSerial := d.nextSerial + 1);
    var d2 := Publish(d1, k, Created(d.nextSerial, k.pipeline, ProgramOf(k)));
    PublishLookup(d1, k, Created(d.nextSerial, k.pipeline, ProgramOf(k)));
    SerialIsNoKey(d, d.nextSerial + 1);
    NotAmong(d0, d, keys, k);
    forall x | x in keys + {k} ensures ProperKey(x) && Lookup(d0, x).None? && FreshFor(d0, d2, x) {
      if x != k {
        assert FreshFor(d0, d, x);
      }
    }
    forall x, y | x in keys + {k} && y in keys + {k} && x != y
      ensures Lookup(d2, x).value.serial != Lookup(d2, y).value.serial
    {
      assert x != k ==> FreshFor(d0, d, x);
      assert y != k ==> FreshFor(d0, d, y);
    }
    assert |keys + {k}| == |keys| + 1;
  }

  lemma SerialIsNoKey(d: Published, n: nat)
    ensures forall x :: ProperKey(x) ==> Lookup(d.(nextSerial := n), x) == Lookup(d, x)
  {
  }

  /** A command whose key had to be given a new pipeline. */
  lemma ResolvedNew(d0: Published, cmds: seq<Command>, d: Published, cmds': seq<Command>, c: Command, d2: Published)
    requires Resolved(d0, cmds, d, cmds') && Names(c) && Lookup(d, KeyOf(c)).None?
    requires d2 == Publish(d.(nextSerial := d.nextSerial + 1), KeyOf(c),
                           Created(d.nextSerial, KeyOf(c).pipeline, ProgramOf(KeyOf(c))))
    ensures Lookup(d2, KeyOf(c)).Some?
    ensures Resolved(d0, cmds + [c], d2, cmds' + [Patch(c, Lookup(d2, KeyOf(c)).value)])
  {
    hide Unresolved, Publish, Lookup, KeyOf, ProgramOf, FreshFor;
    var k := KeyOf(c);
    var keys := Unresolved(d0, cmds);
    UnresolvedSnoc(d0, cmds, c);
    KeyIsProper(c);
    ExtendsMore(d0, d, keys, k);
    KnownAfterPublish(d, k);
    NotAmong(d0, d, keys, k);
    forall i | 0 <= i < |cmds| ensures IsPatched(d2, cmds[i], cmds'[i]) {
      assert IsPatched(d, cmds[i], cmds'[i]);
      if Names(cmds[i]) {
        KeyIsProper(cmds[i]);
      }
    }
  }

  lemma KeyIsProper(c: Command)
    requires Names(c)
    ensures ProperKey(KeyOf(c))
  {
  }

  /** Publishing a new object for a key leaves every key that had a pipeline with the same one. */
  lemma KnownAfterPublish(d: Published, k: Key)
    requires ProperKey(k) && Lookup(d, k).None?
    ensures var c := Created(d.nextSerial, k.pipeline, ProgramOf(k));
      Lookup(Publish(d.(nextSerial := d.nextSerial + 1), k, c), k) == Some(c)
      && forall x :: ProperKey(x) && Lookup(d, x).Some? ==>
           Lookup(Publish(d.(nextSerial := d.nextSerial + 1), k, c), x) == Lookup(d, x)
  {
    PublishLookup(d.(nextSerial := d.nextSerial + 1), k, Created(d.nextSerial, k.pipeline, ProgramOf(k)));
    SerialIsNoKey(d, d.nextSerial + 1);
  }

  class Device {
    const world: World
    var published: Published
    var progress: Progress
    /** The programs whose compile mutex is held, and every acquisition in order. */
    var held: set<Program>
    ghost var acquired: seq<Program>

    constructor (world: World)
      ensures this.world == world && published == Published(map[], map[], 0) && progress == Progress({}, {})
      ensures held == {} && acquired == [] && TablesProper(published)
    {
      this.world := world;
      published, progress, held, acquired := Published(map[], map[], 0), Progress({}, {}), {}, [];
    }

    /** Locking a compile mutex that is held would never return. */
    method Lock(program: Program)
      requires program !in held
      modifies this`held, this`acquired
      ensures held == old(held) + {program} && acquired == old(acquired) + [program]
    {
      held, acquired := held + {program}, acquired + [program];
    }

    method Unlock(program: Program)
      requires program in held
      modifies this`held
      ensures held == old(held) - {program}
    {
      held := held - {program};
    }

    /** getSpecializedProgram: once specialized, a program is found again. */
    method GetSpecializedProgram(program: Program, args: seq<int>) returns (status: Status, specialized: Program)
      modifies this`progress
      ensures status == if (program, args) in old(progress).specialized then Ok else world.specialize(program, args)
      ensures specialized == Specialized(program, args) && progress.compiled == old(progress).compiled
      ensures progress.specialized == old(progress).specialized + if status == Ok then {(program, args)} else {}
    {
      specialized := Specialized(program, args);
      if (program, args) in progress.specialized {
        return Ok, specialized;
      }
      status := world.specialize(program, args);
      if status == Ok {
        progress := progress.(specialized := progress.specialized + {(program, args)});
      }
    }

    /** ShaderProgram::compileShaders, under the program's compile mutex for its whole duration. */
    method CompileShaders(program: Program) returns (status: Status)
      modifies this`progress
      ensures status == CompileStatus(world, old(progress), program)
      ensures status == Ok <==> CompileOk(world, old(progress), program)
      ensures progress.specialized == old(progress).specialized
      ensures progress.compiled == old(progress).compiled + if status == Ok then {program} else {}
    {
      if program in progress.compiled {
        return Ok;
      }
      if world.cpuDevice {
        progress := progress.(compiled := progress.compiled + {program});
        return Ok;
      }
      var preparation := world.prepare(program);
      if preparation.PrepareFailed? {
        return Fail(preparation.code);
      }
      CompileStatusOk(world, progress, program);
      for j := 0 to preparation.entryPoints
        invariant EntryStatus(world, program, j) == Ok && progress == old(progress)
      {
        var result := world.compile(program, j);
        if result != Ok {
          EntryStatusStays(world, program, j + 1, preparation.entryPoints);
          return result;
        }
      }
      if preparation.entryPoints > 0 {
        status := world.install(program);
        if status != Ok {
          return status;
        }
      }
      progress := progress.(compiled := progress.compiled + {program});
      return Ok;
    }

    /** createConcretePipeline: on success a new object, still unpublished. */
    method CreateConcretePipeline(pipeline: Pipeline, program: Program)
      returns (status: Status, created: Option<Pipeline>)
      modifies this`published
      ensures status == world.create(pipeline, program)
      ensures status == Ok ==> created == Some(Created(old(published).nextSerial, pipeline, program))
                               && published == old(published).(nextSerial := old(published).nextSerial + 1)
      ensures status != Ok ==> created == None && published == old(published)
    {
      status := world.create(pipeline, program);
      created := None;
      if status == Ok {
        created := Some(Created(published.nextSerial, pipeline, program));
        published := published.(nextSerial := published.nextSerial + 1);
      }
    }

    /** getConcretePipeline for one pipeline and its specialization arguments. */
    method GetConcretePipeline(pipeline: Pipeline, args: Option<seq<int>>)
      returns (status: Status, out: Option<Pipeline>)
      requires TablesProper(published)
      modifies this`published, this`progress
      ensures TablesProper(published) && Sound(world, old(progress), progress)
      ensures old(published).nextSerial <= published.nextSerial
      ensures status == Ok && Exists(old(published), pipeline) ==> out.Some? && Exists(published, out.value)
      ensures !pipeline.Virtual? ==> status == Ok && out == Some(pipeline) && published == old(published)
                                      && progress == old(progress)
      ensures pipeline.Virtual? && pipeline.program.Base? && pipeline.program.specializable && args.None? ==>
        status == SLANG_FAIL
      ensures status == Ok ==> Outcome(old(published), published, SetState(SetComputeState, Some(pipeline), args),
                                       SetState(SetComputeState, out, None))
      ensures pipeline.Virtual? ==>
        var c := SetState(SetComputeState, Some(pipeline), args);
        if MissingArgs(c) then status == SLANG_FAIL && published == old(published) && progress == old(progress)
        else if Lookup(old(published), KeyOf(c)).Some? then
          && status == Ok && out == Lookup(old(published), KeyOf(c))
          && published == old(published) && progress == old(progress)
        else
          && progress == ServeProgress(world, old(progress), KeyOf(c))
          && status == ServeStatus(world, old(progress), KeyOf(c))
          && (status == Ok <==> KeyOk(world, old(progress), KeyOf(c)))
          && (status != Ok ==> published == old(published))
          && (status == Ok ==>
                var created := Created(old(published).nextSerial, pipeline, ProgramOf(KeyOf(c)));
                out == Some(created)
                && published == Publish(old(published).(nextSerial := old(published).nextSerial + 1), KeyOf(c),
                                        created))
    {
      if !pipeline.Virtual? {
        return Ok, Some(pipeline);
      }
      if pipeline in published.slots {
        return Ok, Some(published.slots[pipeline]);
      }
      var isSpecializable := IsSpecializable(pipeline.program);
      var key := Key(pipeline, []);
      if isSpecializable {
        if args.None? {
          return SLANG_FAIL, None;
        }
        key := Key(pipeline, args.value);
        if key in published.cache {
          return Ok, Some(published.cache[key]);
        }
      }
      ServeStatusOk(world, progress, key);
      var program := pipeline.program;
      if isSpecializable {
        status, program := GetSpecializedProgram(program, key.args);
        if status != Ok {
          return status, None;
        }
      }
      status := CompileShaders(program);
      if status != Ok {
        return status, None;
      }
      status, out := CreateConcretePipeline(pipeline, program);
      if status != Ok {
        return status, None;
      }
      published := Publish(published, key, out.value);
    }
  }

  class CommandList {
    var commands: seq<Command>

    constructor (commands: seq<Command>)
      ensures this.commands == commands
    {
      this.commands := commands;
    }
  }

  /** The commands before i are resolved, those from i on are as they were. */
  ghost predicate ServedUpTo(d0: Published, cmds: seq<Command>, d: Published, cmds': seq<Command>, i: nat) {
    i < |cmds| == |cmds'| && Resolved(d0, cmds[..i], d, cmds'[..i]) && cmds'[i..] == cmds[i..]
  }

  /**
   resolveSerial: succeeds exactly when every key can be served, and then every command is resolved with one new
   object per distinct unresolved key.
   */
  method ResolveSerial(device: Device, list: CommandList) returns (status: Status)
    requires TablesProper(device.published) && AllExist(device.published, list.commands)
    modifies device`published, device`progress, list
    ensures TablesProper(device.published) && AllExist(device.published, list.commands)
    ensures old(device.published).nextSerial <= device.published.nextSerial
    ensures status == Ok <==> Succeeds(device.world, old(device.progress), old(device.published), old(list.commands))
    ensures status == SerialStatus(device.world, old(device.progress), old(device.published), old(list.commands))
    ensures status != Ok ==>
      exists i: nat :: ServedUpTo(old(device.published), old(list.commands), device.published, list.commands, i)
                  && status == CommandStatus(device.world, old(device.progress), old(device.published),
                                             old(list.commands)[i])
    ensures status == Ok ==> Resolved(old(device.published), old(list.commands), device.published, list.commands)
    ensures status == Ok ==> Outcomes(old(device.published), old(list.commands), device.published, list.commands)
    ensures status == Ok ==>
      device.progress == ProgressAfter(old(device.progress), Unresolved(old(device.published), old(list.commands)))
  {
    hide ProgressAfter, Unresolved, Resolved, Succeeds, Sound, TablesProper, Served, KeyOk, KeyOf, Lookup,
         MissingArgs, Names, Exists, AllExist, Outcomes, CommandStatus, ServeStatus, SerialStatus;
    ghost var w, s0, d0, cmds := device.world, device.progress, device.published, list.commands;
    NothingResolved(w, s0, d0, cmds[..0]);
    for i := 0 to |list.commands|
      invariant |list.commands| == |cmds| && list.commands[i..] == cmds[i..]
      invariant TablesProper(device.published) && Sound(w, s0, device.progress)
      invariant AllExist(device.published, list.commands) && d0.nextSerial <= device.published.nextSerial
      invariant Resolved(d0, cmds[..i], device.published, list.commands[..i])
      invariant device.progress == ProgressAfter(s0, Unresolved(d0, cmds[..i]))
      invariant Succeeds(w, s0, d0, cmds[..i]) && SerialStatus(w, s0, d0, cmds[..i]) == Ok
    {
      var command := list.commands[i];
      assert command == cmds[i..][0] == cmds[i];
      ghost var pre, pre', d := cmds[..i], list.commands[..i], device.published;
      assert cmds[..i + 1] == pre + [command];
      SerialSnoc(w, s0, d0, cmds, i);
      if HasPipeline(command) {
        ghost var s := device.progress;
        var concretePipeline;
        ExistAt(d, list.commands, i);
        status, concretePipeline := Serve(device, command);
        if status != Ok {
          ExistLater(d, list.commands, device.published.nextSerial);
          FailedCommand(w, s0, d0, cmds, s, d, pre', i);
          FailedStatus(w, s0, d0, pre, s, d, pre', command, status);
          SerialStays(w, s0, d0, cmds, i + 1);
          assert ServedUpTo(d0, cmds, device.published, list.commands, i);
          return;
        }
        PatchExists(d, list.commands, i, device.published, concretePipeline.value);
        list.commands := list.commands[i := Patch(command, concretePipeline.value)];
        SoundTrans(w, s0, s, device.progress);
        ProgressStep(s0, d0, pre, d, pre', command, s, device.progress);
        ServedStatus(w, s0, d0, pre, s, d, pre', command, device.published, concretePipeline.value);
        SerialStep(w, s0, d0, pre, s, d, pre', command, device.published, concretePipeline.value);
      } else {
        OtherCommand(w, s0, d0, pre, d, pre', command);
        OtherStatus(w, s0, d0, command);
        ProgressStep(s0, d0, pre, d, pre', command, device.progress, device.progress);
      }
      assert list.commands[..i + 1] == pre' + [list.commands[i]];
    }
    assert cmds[..|cmds|] == cmds && list.commands[..|cmds|] == list.commands;
    ResolvedOutcomes(d0, cmds, device.published, list.commands);
    return Ok;
  }

  lemma ExistAt(d: Published, cmds: seq<Command>, i: nat)
    requires AllExist(d, cmds) && i < |cmds| && HasPipeline(cmds[i])
    ensures Exists(d, cmds[i].pipeline.value)
  {
  }

  lemma PatchExists(d: Published, cmds: seq<Command>, i: nat, d': Published, p: Pipeline)
    requires AllExist(d, cmds) && i < |cmds| && HasPipeline(cmds[i]) && Exists(d', p) && d.nextSerial <= d'.nextSerial
    ensures AllExist(d', cmds[i := Patch(cmds[i], p)])
  {
  }

  lemma NothingResolved(w: World, s: Progress, d: Published, none: seq<Command>)
    requires none == []
    ensures Sound(w, s, s) && Resolved(d, none, d, none) && Succeeds(w, s, d, none)
    ensures SerialStatus(w, s, d, none) == Ok && ProgressAfter(s, Unresolved(d, none)) == s
  {
    assert Unresolved(d, none) == {} && Asked({}) == {} && Built({}) == {};
  }

  lemma OtherCommand(w: World, s0: Progress, d0: Published, pre: seq<Command>, d: Published, pre': seq<Command>,
                     c: Command)
    requires Resolved(d0, pre, d, pre') && Succeeds(w, s0, d0, pre) && !HasPipeline(c)
    ensures Resolved(d0, pre + [c], d, pre' + [c]) && Succeeds(w, s0, d0, pre + [c])
  {
    ResolvedKnown(d0, pre, d, pre', c, c);
  }

  /** getConcretePipeline for the pipeline of a command: it is served, or its key cannot be. */
  method Serve(device: Device, command: Command) returns (status: Status, out: Option<Pipeline>)
    requires TablesProper(device.published) && HasPipeline(command)
    requires Exists(device.published, command.pipeline.value)
    modifies device`published, device`progress
    ensures TablesProper(device.published) && Sound(device.world, old(device.progress), device.progress)
    ensures status == Ok ==> out.Some? && Exists(device.published, out.value)
    ensures old(device.published).nextSerial <= device.published.nextSerial
    ensures status == Ok ==>
              Served(device.world, old(device.progress), old(device.published), command, device.published, out.value)
    ensures status == Ok ==>
      device.progress == if Names(command) && Lookup(old(device.published), KeyOf(command)).None?
                         then ProgressAfter(old(device.progress), {KeyOf(command)}) else old(device.progress)
    ensures status != Ok ==> Names(command) && device.published == old(device.published)
    ensures status != Ok ==> status == CommandStatus(device.world, old(device.progress), old(device.published), command)
    ensures status != Ok && !MissingArgs(command) ==>
              Lookup(device.published, KeyOf(command)).None?
              && !KeyOk(device.world, old(device.progress), KeyOf(command))
  {
    hide TablesProper, Sound, KeyOk, Lookup, Publish, Exists, ServeStatus, Outcome;
    ghost var s := device.progress;
    status, out := device.GetConcretePipeline(command.pipeline.value, command.args);
    if Names(command) && Lookup(old(device.published), KeyOf(command)).None? && status == Ok {
      ServedProgress(device.world, s, KeyOf(command));
    }
  }

  /** One more command has been served. */
  lemma ProgressStep(s0: Progress, d0: Published, pre: seq<Command>, d: Published, pre': seq<Command>, c: Command,
                     s: Progress, s': Progress)
    requires Resolved(d0, pre, d, pre') && s == ProgressAfter(s0, Unresolved(d0, pre))
    requires s' == if Names(c) && Lookup(d, KeyOf(c)).None? then ProgressAfter(s, {KeyOf(c)}) else s
    ensures s' == ProgressAfter(s0, Unresolved(d0, pre + [c]))
  {
    hide ProgressAfter, Unresolved, Lookup, FreshFor, KeyOf;
    UnresolvedSnoc(d0, pre, c);
    if Names(c) {
      KeyIsProper(c);
      var k, keys := KeyOf(c), Unresolved(d0, pre);
      if Lookup(d, k).None? {
        NotAmong(d0, d, keys, k);
        ProgressMore(s0, keys, k);
      } else if Lookup(d0, k).None? {
        assert k in keys;
        assert keys + {k} == keys;
      }
    }
    assert Unresolved(d0, pre) + {} == Unresolved(d0, pre);
  }

  lemma OtherStatus(w: World, s: Progress, d: Published, c: Command)
    requires !HasPipeline(c)
    ensures CommandStatus(w, s, d, c) == Ok && !Names(c)
  {
  }

  lemma ServedStatus(w: World, s0: Progress, d0: Published, pre: seq<Command>, s: Progress, d: Published,
                     pre': seq<Command>, command: Command, d': Published, out: Pipeline)
    requires HasPipeline(command) && Sound(w, s0, s) && Served(w, s, d, command, d', out)
    requires Resolved(d0, pre, d, pre') && Succeeds(w, s0, d0, pre)
    ensures CommandStatus(w, s0, d0, command) == Ok
  {
    hide ServeStatus, KeyOk, Resolved, Succeeds, Lookup, KeyOf;
    if Names(command) {
      KeyIsProper(command);
      ServeStatusOk(w, s0, KeyOf(command));
      SoundKeyOk(w, s0, s, KeyOf(command));
      if Lookup(d0, KeyOf(command)).None? && Lookup(d, KeyOf(command)).Some? {
        KeyAlreadyServed(w, s0, d0, pre, d, pre', KeyOf(command));
      }
    }
  }

  lemma FailedStatus(w: World, s0: Progress, d0: Published, pre: seq<Command>, s: Progress, d: Published,
                     pre': seq<Command>, command: Command, status: Status)
    requires Resolved(d0, pre, d, pre') && Sound(w, s0, s) && Names(command)
    requires status == CommandStatus(w, s, d, command) && status != Ok
    ensures status == CommandStatus(w, s0, d0, command)
  {
    hide ServeStatus, Lookup, KeyOf;
    if !MissingArgs(command) {
      KeyIsProper(command);
      SoundStatus(w, s0, s, KeyOf(command));
      NotAmong(d0, d, Unresolved(d0, pre), KeyOf(command));
    }
  }

  lemma SoundTrans(w: World, a: Progress, b: Progress, c: Progress)
    requires Sound(w, a, b) && Sound(w, b, c)
    ensures Sound(w, a, c)
  {
  }

  /** What getConcretePipeline promises about a command that has a pipeline. */
  ghost predicate Served(w: World, s: Progress, d: Published, command: Command, d': Published, out: Pipeline)
    requires HasPipeline(command)
  {
    if !Names(command) then out == command.pipeline.value && d' == d
    else
      && !MissingArgs(command)
      && if Lookup(d, KeyOf(command)).Some? then Some(out) == Lookup(d, KeyOf(command)) && d' == d
         else
           && KeyOk(w, s, KeyOf(command))
           && out == Created(d.nextSerial, command.pipeline.value, ProgramOf(KeyOf(command)))
           && d' == Publish(d.(nextSerial := d.nextSerial + 1), KeyOf(command), out)
  }

  lemma SerialStep(w: World, s0: Progress, d0: Published, pre: seq<Command>, s: Progress, d: Published,
                   pre': seq<Command>, command: Command, d': Published, out: Pipeline)
    requires HasPipeline(command) && Sound(w, s0, s) && Served(w, s, d, command, d', out)
    requires Resolved(d0, pre, d, pre') && Succeeds(w, s0, d0, pre)
    ensures Resolved(d0, pre + [command], d', pre' + [Patch(command, out)]) && Succeeds(w, s0, d0, pre + [command])
  {
    if Names(command) && Lookup(d, KeyOf(command)).None? {
      SoundKeyOk(w, s0, s, KeyOf(command));
      ResolvedNew(d0, pre, d, pre', command, d');
    } else {
      ResolvedKnown(d0, pre, d, pre', command, Patch(command, out));
      if Names(command) && Lookup(d0, KeyOf(command)).None? {
        KeyAlreadyServed(w, s0, d0, pre, d, pre', KeyOf(command));
      }
    }
  }

  /** A key that was unresolved at first and has a pipeline now was served for an earlier command. */
  lemma KeyAlreadyServed(w: World, s0: Progress, d0: Published, pre: seq<Command>, d: Published, pre': seq<Command>,
                         k: Key)
    requires Resolved(d0, pre, d, pre') && Succeeds(w, s0, d0, pre)
    requires ProperKey(k) && Lookup(d0, k).None? && Lookup(d, k).Some?
    ensures KeyOk(w, s0, k)
  {
    assert k in Unresolved(d0, pre);
    var i :| 0 <= i < |pre| && Names(pre[i]) && Lookup(d0, KeyOf(pre[i])).None? && KeyOf(pre[i]) == k;
  }

  /** If a command cannot be served, the whole list cannot succeed. */
  lemma FailedCommand(w: World, s0: Progress, d0: Published, cmds: seq<Command>, s: Progress, d: Published,
                      pre': seq<Command>, i: nat)
    requires i < |cmds| && Resolved(d0, cmds[..i], d, pre') && Sound(w, s0, s) && Names(cmds[i])
    requires MissingArgs(cmds[i]) || (Lookup(d, KeyOf(cmds[i])).None? && !KeyOk(w, s, KeyOf(cmds[i])))
    ensures !Succeeds(w, s0, d0, cmds)
  {
    if !MissingArgs(cmds[i]) {
      var k := KeyOf(cmds[i]);
      SoundKeyOk(w, s0, s, k);
      NotAmong(d0, d, Unresolved(d0, cmds[..i]), k);
    }
  }
}
