/**
 The batched resolution of a command list: collect the distinct keys, prepare their programs, compile entry
 points in any order, install, create pipelines in any order, and only then publish.
 */
module PipelineResolver {
  import opened PipelineDevice
  import opened PipelineModel
  import opened ResolverSpec
  import opened ResolverSteps
  import opened Sequences
  import opened Wrappers

  class Resolver {
    const device: Device
    const list: CommandList
    var requests: seq<Request>
    var programs: seq<ProgramWork>

    constructor (device: Device, list: CommandList)
      ensures this.device == device && this.list == list && requests == [] && programs == []
    {
      this.device, this.list, requests, programs := device, list, [], [];
    }

    method CollectRequests() returns (status: Status)
      modifies this`requests, list
      ensures status == if exists i :: 0 <= i < |old(list.commands)| && MissingArgs(old(list.commands)[i])
                        then SLANG_FAIL else Ok
      ensures Untouched(old(list.commands), list.commands)
      ensures status == Ok ==> Collected(device.published, old(list.commands), requests)
                               && AllSettled(old(list.commands), list.commands)
    {
      hide Collected, RequestKeys, IndicesOf, Lookup, KeyOf;
      ghost var cmds := list.commands;
      var requestMap: map<Key, nat> := map[];
      requests := [];
      CollectedNone(device.published, cmds[..0]);
      for i := 0 to |list.commands|
        invariant |list.commands| == |cmds|
        invariant forall j :: i <= j < |cmds| ==> list.commands[j] == cmds[j]
        invariant forall j :: 0 <= j < i ==> list.commands[j] == Settled(cmds[j]) && !MissingArgs(cmds[j])
        invariant Collected(device.published, cmds[..i], requests)
        invariant forall k :: k in requestMap ==> requestMap[k] < |requests| && requests[requestMap[k]].key == k
        invariant forall k :: k in RequestKeys(cmds[..i]) ==> k in requestMap
      {
        var command := list.commands[i];
        ghost var pre := cmds[..i];
        assert cmds[..i + 1] == pre + [command];
        if !Names(command) {
          if HasPipeline(command) {
            list.commands := list.commands[i := Patch(command, command.pipeline.value)];
          }
          CollectSkip(device.published, pre, requests, command);
          KeysSnoc(pre, command);
          continue;
        }
        if MissingArgs(command) {
          return SLANG_FAIL;
        }
        var key := KeyOf(command);
        KeyIsProper(command);
        KeysSnoc(pre, command);
        if key !in requestMap {
          CollectNew(device.published, pre, requests, command);
          requestMap := requestMap[key := |requests|];
          requests := requests + [Request(key, [i], None, Lookup(device.published, key), Ok, false)];
        } else {
          var at := requestMap[key];
          CollectAgain(device.published, pre, requests, command, at);
          requests := requests[at := requests[at].(commands := requests[at].commands + [i])];
        }
      }
      assert cmds[..|cmds|] == cmds;
      return Ok;
    }

    /** A new work item for a program: take its mutex and, unless it has been compiled, prepare its entry points. */
    method AddProgram(program: Program) returns (status: Status)
      requires LockState(programs, device.held) && program !in WorkPrograms(programs)
      modifies this`programs, device`held, device`acquired
      ensures status == if program in device.progress.compiled then Ok
                        else PreparedStatus(device.world.prepare(program))
      ensures |programs| == |old(programs)| + 1 && programs == old(programs) + [programs[|old(programs)|]]
      ensures var item := programs[|old(programs)|];
        item == ProgramWork(program, true, item.entryPoints)
        && (status == Ok ==> |item.entryPoints| == EntryPoints(device.world, device.progress, program))
      ensures LockState(programs, device.held) && device.acquired == old(device.acquired) + [program]
      ensures WorkPrograms(programs) == WorkPrograms(old(programs)) + [program]
    {
      hide LockState, WorkPrograms;
      LockMore(programs, device.held, program, []);
      device.Lock(program);
      var entryPoints := 0;
      if program !in device.progress.compiled {
        var preparation := device.world.prepare(program);
        if preparation.PrepareFailed? {
          programs := programs + [ProgramWork(program, true, [])];
          return Fail(preparation.code);
        }
        entryPoints := preparation.entryPoints;
      }
      var uncompiled := seq(entryPoints, _ => Ok);
      LockMore(programs, old(device.held), program, uncompiled);
      programs := programs + [ProgramWork(program, true, uncompiled)];
      return Ok;
    }

    /** Specializes and locks; on success every program to compile is locked, each once. */
    method PreparePrograms(ghost cmds: seq<Command>, ghost s0: Progress) returns (status: Status)
      requires Collected(device.published, cmds, requests)
      requires programs == [] && device.held == {} && Sound(device.world, s0, device.progress)
      requires device.progress.compiled == s0.compiled
      modifies this`requests, this`programs, device`progress, device`held, device`acquired
      ensures var pending := Pending(device.published, RequestKeys(cmds));
        && status == FirstFailureOf(pending, Preparing(device.world, s0))
        && (status == Ok ==> Programmed(old(requests), |old(requests)|, requests)
                             && WorkPrepared(device.world, s0, ProgramsOf(pending), programs))
      ensures device.progress.compiled == s0.compiled && Sound(device.world, s0, device.progress)
      ensures status == Ok ==>
        device.progress.specialized == old(device.progress).specialized
                                       + Asked(AsSet(Pending(device.published, RequestKeys(cmds))))
      ensures status == Ok ==> WorkPrograms(programs) == ProgramsOf(Pending(device.published, RequestKeys(cmds)))
      ensures LockState(programs, device.held)
      ensures device.acquired == old(device.acquired) + WorkPrograms(programs)
    {
      hide Pending, ProgramsOf, FirstFailureOf, KeyPrepare, LockState, RequestKeys, IndicesOf, Lookup, WorkPrepared,
           ProgramOf, Programmed, Collected, Sound, WorkPrograms, Asked;
      ghost var w, d, rs0 := device.world, device.published, requests;
      ghost var keys := RequestKeys(cmds);
      ghost var before: seq<Key> := [];
      PrepareStart(w, s0, d, cmds, rs0);
      var programMap: set<Program> := {};
      for j := 0 to |requests|
        invariant |requests| == |keys| && Programmed(rs0, j, requests)
        invariant before == Pending(d, keys[..j])
        invariant FirstFailureOf(before, Preparing(w, s0)) == Ok
        invariant WorkPrepared(w, s0, ProgramsOf(before), programs) && LockState(programs, device.held)
        invariant programMap == AsSet(ProgramsOf(before))
        invariant WorkPrograms(programs) == ProgramsOf(before)
        invariant device.acquired == old(device.acquired) + WorkPrograms(programs)
        invariant device.progress.compiled == s0.compiled && Sound(w, s0, device.progress)
        invariant device.progress.specialized == old(device.progress).specialized + Asked(AsSet(before))
      {
        var request := requests[j];
        ghost var key := keys[j];
        RequestAt(d, cmds, rs0, requests, j);
        PendingSnoc(d, keys, j);
        if request.concrete.Some? {
          ProgrammedSkip(rs0, j, requests);
          continue;
        }
        KeyPrepareInSteps(w, s0, device.progress, key);
        var program := request.key.pipeline.program;
        if IsSpecializable(program) {
          ghost var s := device.progress;
          status, program := device.GetSpecializedProgram(program, request.key.args);
          SoundSpecialized(w, s0, s, key, device.progress, status);
          if status != Ok {
            PendingFails(d, keys, j, Preparing(w, s0));
            return;
          }
        }
        ProgramOfKey(key, program);
        ProgrammedNext(rs0, j, requests, program);
        requests := requests[j := request.(program := Some(program))];
        ProgramsSnoc(before, key);
        if program !in programMap {
          programMap := programMap + {program};
          ghost var work := programs;
          status := AddProgram(program);
          if status != Ok {
            PendingFails(d, keys, j, Preparing(w, s0));
            return;
          }
          PreparedMore(w, s0, ProgramsOf(before), work, program, programs[|work|].entryPoints);
        } else {
          PreparedBefore(w, s0, before, program);
        }
        FirstFailureOfSnoc(before, key, Preparing(w, s0));
        AskedSnoc(before, key);
        before := before + [key];
      }
      assert keys[..|keys|] == keys;
      return Ok;
    }

    /** The tasks, one for each entry point. */
    method CompileTasks() returns (tasks: seq<Task>)
      ensures forall t :: t in tasks <==> IsEntryPoint(programs, t)
    {
      tasks := [];
      for i := 0 to |programs|
        invariant forall t :: t in tasks <==> IsEntryPoint(programs, t) && t.program < i
      {
        for j := 0 to |programs[i].entryPoints|
          invariant forall t :: t in tasks <==>
                      IsEntryPoint(programs, t) && (t.program < i || (t.program == i && t.entryPoint < j))
        {
          tasks := tasks + [CompileTask(i, j)];
        }
      }
    }

    /** Runs every task: in order when there is only one, in any order on the task pool. */
    method RunCompileTasks(tasks: seq<Task>)
      requires Compiled(device.world, programs, tasks)
      modifies this`programs
      ensures Compiled(device.world, programs, []) && SameItems(old(programs), programs)
    {
      hide Compiled, SameItems;
      var todo := tasks;
      SameItemsRefl(programs);
      while todo != []
        invariant Compiled(device.world, programs, todo) && SameItems(old(programs), programs)
        decreases |todo|
      {
        var next := 0;
        if |tasks| > 1 {
          next :| 0 <= next < |todo|;
        }
        var task := todo[next];
        CompileStep(device.world, programs, todo, next);
        SameItemsTrans(old(programs), programs, CompileResult(device.world, programs, task));
        var item := programs[task.program];
        var result := device.world.compile(item.program, task.entryPoint);
        programs := programs[task.program := item.(entryPoints := item.entryPoints[task.entryPoint := result])];
        todo := Without(todo, next);
      }
    }

    /** The first failed entry point, by program and position. */
    method FirstCompileFailure(ghost s0: Progress, ghost names: seq<Program>) returns (firstFailure: Status)
      requires WorkPrepared(device.world, s0, names, programs) && Compiled(device.world, programs, [])
      ensures firstFailure == FirstFailureOf(names, Compiling(device.world, s0))
    {
      hide WorkPrepared, Compiled, ProgramCompile, FirstFailureOf, FirstFailure;
      ghost var w := device.world;
      AllCompiled(w, s0, names, programs);
      firstFailure := Ok;
      NoFailure(names, Compiling(w, s0));
      for i := 0 to |programs|
        invariant firstFailure == FirstFailureOf(names[..i], Compiling(w, s0))
      {
        ghost var before := firstFailure;
        var results := programs[i].entryPoints;
        NoResult(results);
        for j := 0 to |results|
          invariant firstFailure == if before != Ok then before else FirstFailure(results[..j])
        {
          FirstFailureSnoc(results[..j], results[j]);
          assert results[..j] + [results[j]] == results[..j + 1];
          if results[j] != Ok && firstFailure == Ok {
            firstFailure := results[j];
          }
        }
        assert results[..|results|] == results;
        FirstFailureOfSnoc(names[..i], names[i], Compiling(w, s0));
        assert names[..i] + [names[i]] == names[..i + 1];
      }
      assert names[..|names|] == names;
    }

    /** Populates the module containers one program after the other and gives each mutex back. */
    method InstallPrograms(ghost s0: Progress, ghost names: seq<Program>) returns (status: Status)
      requires WorkPrepared(device.world, s0, names, programs) && LockState(programs, device.held)
      requires FirstFailureOf(names, Compiling(device.world, s0)) == Ok && Sound(device.world, s0, device.progress)
      modifies this`programs, device`progress, device`held
      ensures status == FirstFailureOf(names, Installing(device.world, s0))
      ensures device.progress.specialized == old(device.progress).specialized
      ensures status == Ok ==> device.held == {}
      ensures status == Ok ==>
        device.progress.compiled == old(device.progress).compiled + Installed(device.world, s0, names)
      ensures LockState(programs, device.held) && Sound(device.world, s0, device.progress)
    {
      hide WorkPrograms, FirstFailureOf, LockState, EntryPoints, Sound, ProgramInstall, CompileOk, Installed;
      ghost var w := device.world;
      WorkProgramsAt(programs);
      NoFailure(names, Installing(w, s0));
      NothingInstalled(w, s0, names[..0]);
      for i := 0 to |programs|
        invariant |programs| == |names| && LockState(programs, device.held) && Sound(w, s0, device.progress)
        invariant forall j :: 0 <= j < |programs| ==> programs[j].program == names[j] && programs[j].locked == (i <= j)
        invariant forall j :: 0 <= j < |programs| ==> |programs[j].entryPoints| == EntryPoints(w, s0, names[j])
        invariant FirstFailureOf(names[..i], Installing(w, s0)) == Ok
        invariant device.progress.specialized == old(device.progress).specialized
        invariant device.progress.compiled == old(device.progress).compiled + Installed(w, s0, names[..i])
      {
        InstalledSnoc(w, s0, names, i);
        var item := programs[i];
        FailureAt(names, i, Installing(w, s0));
        InstallOf(w, s0, item.program);
        if item.entryPoints != [] {
          status := device.world.install(item.program);
          if status != Ok {
            return;
          }
          InstalledOk(w, s0, names, i);
          SoundCompiled(w, s0, device.progress, item.program);
          device.progress := device.progress.(compiled := device.progress.compiled + {item.program});
        }
        UnlockOne(programs, device.held, i);
        LockedIsHeld(programs, device.held, i);
        device.Unlock(item.program);
        programs := programs[i := item.(locked := false)];
      }
      assert names[..|names|] == names;
      NothingHeld(programs, device.held);
      return Ok;
    }

    /** Compiles every entry point, then installs; the status and the results do not depend on the task order. */
    method CompilePrograms(ghost s0: Progress, ghost names: seq<Program>) returns (status: Status)
      requires WorkPrepared(device.world, s0, names, programs) && LockState(programs, device.held)
      requires Sound(device.world, s0, device.progress)
      modifies this`programs, device`progress, device`held
      ensures var compiled := FirstFailureOf(names, Compiling(device.world, s0));
        status == if compiled != Ok then compiled else FirstFailureOf(names, Installing(device.world, s0))
      ensures device.progress.specialized == old(device.progress).specialized
      ensures status == Ok ==> device.held == {}
      ensures status == Ok ==>
        device.progress.compiled == old(device.progress).compiled + Installed(device.world, s0, names)
      ensures LockState(programs, device.held) && Sound(device.world, s0, device.progress)
    {
      hide WorkPrepared, LockState, FirstFailureOf, SameItems, Sound;
      var tasks := CompileTasks();
      RunCompileTasks(tasks);
      SameItemsKeep(device.world, s0, names, old(programs), device.held, programs);
      status := FirstCompileFailure(s0, names);
      if status != Ok {
        return;
      }
      status := InstallPrograms(s0, names);
    }

    /** createPipelineTask: touches no request but its own. */
    method CreatePipelineTask(i: nat)
      requires i < |requests| && requests[i].concrete.None? && ProperKey(requests[i].key)
      requires requests[i].program == Some(ProgramOf(requests[i].key))
      modifies this`requests, device`published
      ensures requests == old(requests)[i := TriedRequest(device.world, old(device.published).nextSerial,
                                                         old(requests)[i])]
      ensures device.published == old(device.published).(nextSerial := old(device.published).nextSerial
                + if KeyCreate(device.world, old(requests)[i].key) == Ok then 1 else 0)
    {
      hide ProgramOf;
      var request := requests[i];
      var status, created := device.CreateConcretePipeline(request.key.pipeline, request.program.value);
      requests := requests[i := request.(created := true, result := status, concrete := created)];
    }

    /** Runs creation tasks, on the task pool in any order or one after the other. */
    method RunCreateTasks(tasks: seq<Task>, anyOrder: bool, ghost n0: nat, ghost base: seq<Request>)
      requires NoDuplicates(tasks) && Creation(device.world, n0, device.published.nextSerial, base, requests)
      requires forall t :: t in tasks ==> Untried(base, requests, t)
      modifies this`requests, device`published
      ensures Creation(device.world, n0, device.published.nextSerial, base, requests)
      ensures device.published == old(device.published).(nextSerial := device.published.nextSerial)
      ensures old(device.published).nextSerial <= device.published.nextSerial
      ensures |requests| == |old(requests)|
      ensures forall i :: 0 <= i < |requests| ==>
        requests[i].created == (old(requests)[i].created || CreateTask(i) in tasks)
    {
      hide Creation, Tried, NoDuplicates, TriedRequest, Without, ProperKey, ProgramOf;
      var todo := tasks;
      CreationShape(device.world, n0, device.published.nextSerial, base, requests);
      while todo != []
        invariant Creation(device.world, n0, device.published.nextSerial, base, requests)
        invariant NoDuplicates(todo) && forall t :: t in todo ==> Untried(base, requests, t)
        invariant device.published == old(device.published).(nextSerial := device.published.nextSerial)
        invariant old(device.published).nextSerial <= device.published.nextSerial
        invariant |requests| == |base| == |old(requests)|
        invariant forall i :: 0 <= i < |requests| ==>
                    requests[i].created ==
                    (old(requests)[i].created || (CreateTask(i) in tasks && CreateTask(i) !in todo))
        invariant forall t :: t in todo ==> t in tasks
        decreases |todo|
      {
        var next := 0;
        if anyOrder {
          next :| 0 <= next < |todo|;
        }
        var task := todo[next];
        assert task in todo;
        assert Untried(base, requests, task);
        ghost var rs := requests;
        CreateStep(device.world, n0, device.published.nextSerial, base, requests, task.request);
        TriedIsCreated(device.world, device.published.nextSerial, requests[task.request]);
        CreatePipelineTask(task.request);
        WithoutMembers(todo, next);
        forall t | t in Without(todo, next) ensures Untried(base, requests, t) {
          assert t in todo && t != task;
          assert Untried(base, rs, t);
        }
        forall i | 0 <= i < |requests|
          ensures requests[i].created
               == (old(requests)[i].created || (CreateTask(i) in tasks && CreateTask(i) !in Without(todo, next)))
        {
          if i != task.request {
            assert CreateTask(i) in todo <==> CreateTask(i) in Without(todo, next);
          } else {
            assert CreateTask(i) == task;
          }
        }
        todo := Without(todo, next);
      }
    }

    /** One task for each request without a pipeline, by where it may run. */
    method CreateTasks() returns (workers: seq<Task>, callers: seq<Task>)
      ensures NoDuplicates(workers) && NoDuplicates(callers)
      ensures forall t :: t in workers || t in callers <==>
        t.CreateTask? && t.request < |requests| && requests[t.request].concrete.None?
      ensures forall t :: t in workers ==> t !in callers
    {
      workers, callers := [], [];
      for i := 0 to |requests|
        invariant NoDuplicates(workers) && NoDuplicates(callers)
        invariant forall t :: t in workers || t in callers <==>
                    t.CreateTask? && t.request < i && requests[t.request].concrete.None?
        invariant forall t :: t in workers ==> t !in callers
      {
        if requests[i].concrete.None? {
          assert CreateTask(i) !in workers && CreateTask(i) !in callers;
          if device.world.onTaskPool(requests[i].key.pipeline) {
            workers := workers + [CreateTask(i)];
          } else {
            callers := callers + [CreateTask(i)];
          }
        }
      }
    }

    /** Creates the missing pipelines with no compile mutex held; nothing is published. */
    method CreatePipelines(ghost cmds: seq<Command>, ghost base: seq<Request>) returns (status: Status)
      requires device.held == {}
      requires Ready(device.published, cmds, requests) && base == requests
      modifies this`requests, device`published
      ensures status == FirstFailureOf(Pending(old(device.published), RequestKeys(cmds)), Creating(device.world))
      ensures device.published == old(device.published).(nextSerial := device.published.nextSerial)
      ensures old(device.published).nextSerial <= device.published.nextSerial
      ensures status == Ok ==>
        Made(device.world, old(device.published), cmds, base, requests, device.published.nextSerial)
    {
      hide Creation, Ready, FirstFailureOf, Pending, Made, KeyCreate, Lookup, RequestKeys, NoDuplicates, Untried;
      ghost var w, d, keys := device.world, device.published, RequestKeys(cmds);
      CreationStart(w, d, cmds, d.nextSerial, requests);
      var workers, callers := CreateTasks();
      AllUntried(d, cmds, requests);
      RunCreateTasks(workers, |workers| > 1, d.nextSerial, base);
      CallersUntried(w, d.nextSerial, device.published.nextSerial, base, requests, workers, callers);
      RunCreateTasks(callers, false, d.nextSerial, base);
      CreationShape(w, d.nextSerial, device.published.nextSerial, base, requests);
      forall i | 0 <= i < |requests| ensures requests[i].created == base[i].concrete.None? {
        var t := CreateTask(i);
        assert (t in workers || t in callers) <==> base[i].concrete.None?;
      }
      AfterCreation(w, d, cmds, base, requests, device.published.nextSerial);
      PendingNone(d, keys, Creating(w));
      var tried := requests;
      ghost var counted := device.published;
      for j := 0 to |tried|
        invariant requests == tried && device.published == counted
        invariant FirstFailureOf(Pending(d, keys[..j]), Creating(w)) == Ok
        invariant forall i :: 0 <= i < j ==> tried[i].result == Ok
      {
        PendingSnoc(d, keys, j);
        FirstFailureOfSnoc(Pending(d, keys[..j]), keys[j], Creating(w));
        assert Pending(d, keys[..j]) + [] == Pending(d, keys[..j]);
        assert Creating(w)(keys[j]) == KeyCreate(w, keys[j]);
        if tried[j].result != Ok {
          PendingFails(d, keys, j, Creating(w));
          return tried[j].result;
        }
      }
      assert keys[..|keys|] == keys;
      return Ok;
    }

    /** patchCommand for every command of a request. */
    method PatchCommands(indices: seq<nat>, p: Pipeline)
      requires forall i :: i in indices ==> i < |list.commands|
      modifies list
      ensures |list.commands| == |old(list.commands)|
      ensures forall c :: 0 <= c < |list.commands| ==>
        list.commands[c] == if c in indices then Patched(old(list.commands)[c], p) else old(list.commands)[c]
    {
      ghost var before := list.commands;
      for t := 0 to |indices|
        invariant |list.commands| == |before|
        invariant forall c :: 0 <= c < |before| ==>
          list.commands[c] == if c in indices[..t] then Patched(before[c], p) else before[c]
      {
        var c := indices[t];
        assert c in indices && indices[..t + 1] == indices[..t] + [c];
        list.commands := list.commands[c := Patched(list.commands[c], p)];
      }
      assert indices[..|indices|] == indices;
    }

    /** Publishes every created pipeline and patches every command that asked for one. */
    method Finalize(ghost d0: Published, ghost cmds: seq<Command>, ghost base: seq<Request>)
      requires Made(device.world, d0, cmds, base, requests, device.published.nextSerial)
      requires device.published == d0.(nextSerial := device.published.nextSerial) && TablesProper(d0)
      requires AllSettled(cmds, list.commands) && AllExist(d0, cmds)
      modifies device`published, list
      ensures TablesProper(device.published) && AllExist(device.published, list.commands)
      ensures Resolved(d0, cmds, device.published, list.commands)
      ensures device.published.nextSerial == old(device.published).nextSerial
    {
      hide Made, PublishedUpTo, PatchedUpTo, Lookup, Publish, IndicesOf, NowPatched, RequestKeys, Resolved,
           TablesProper, Patched, IsSpecializable, AllExist;
      ghost var w, next := device.world, device.published.nextSerial;
      MadeShape(w, d0, cmds, base, requests, next);
      RequestKeysMeaning(cmds);
      FinalizeStart(d0, cmds, requests, device.published, list.commands);
      ExistLater(d0, cmds, next);
      for j := 0 to |requests|
        invariant PublishedUpTo(d0, requests, j, device.published) && device.published.nextSerial == next
        invariant PatchedUpTo(cmds, requests, j, list.commands) && |list.commands| == |cmds|
        invariant TablesProper(device.published)
      {
        var request := requests[j];
        PublishNext(d0, requests, j, device.published);
        if request.created {
          PublishKeeps(device.published, request.key, request.concrete.value);
          device.published := Publish(device.published, request.key, request.concrete.value);
        }
        ghost var before := list.commands;
        IndicesMeaning(cmds, request.key);
        PatchCommands(request.commands, request.concrete.value);
        PatchNext(cmds, requests, j, before, list.commands);
      }
      FinalizedIsResolved(w, d0, cmds, base, requests, device.published, list.commands);
      ResolvedExist(d0, cmds, device.published, list.commands);
    }

    /** The destructor: gives back every compile mutex that is still held. */
    method Release()
      requires LockState(programs, device.held)
      modifies this`programs, device`held
      ensures device.held == {}
    {
      hide LockState, WorkPrograms;
      for i := 0 to |programs|
        invariant |programs| == |old(programs)| && LockState(programs, device.held)
        invariant forall j :: 0 <= j < i ==> !programs[j].locked
      {
        if programs[i].locked {
          UnlockOne(programs, device.held, i);
          LockedIsHeld(programs, device.held, i);
          device.Unlock(programs[i].program);
          programs := programs[i := programs[i].(locked := false)];
        }
      }
      NothingHeld(programs, device.held);
    }

    /** The four phases, one after the other. */
    method RunPhases() returns (status: Status)
      requires requests == [] && programs == [] && device.held == {}
      requires TablesProper(device.published) && AllExist(device.published, list.commands)
      modifies this`requests, this`programs, list, device`published, device`progress, device`held, device`acquired
      ensures status == BatchedStatus(device.world, old(device.progress), old(device.published), old(list.commands))
      ensures status == Ok ==> Resolved(old(device.published), old(list.commands), device.published, list.commands)
      ensures status != Ok ==> Untouched(old(list.commands), list.commands)
                               && device.published == old(device.published).(nextSerial := device.published.nextSerial)
      ensures TablesProper(device.published) && AllExist(device.published, list.commands)
      ensures old(device.published).nextSerial <= device.published.nextSerial
      ensures Sound(device.world, old(device.progress), device.progress)
      ensures LockState(programs, device.held)
      ensures exists taken :: NoDuplicates(taken) && device.acquired == old(device.acquired) + taken
      ensures status == Ok ==>
        var pending := Pending(old(device.published), RequestKeys(old(list.commands)));
        && device.acquired == old(device.acquired) + ProgramsOf(pending)
        && device.progress == BatchedProgress(device.world, old(device.progress), pending)
    {
      hide Asked, Installed, RequestKeys, Pending, PhasesStatus, Resolved, Untouched, Sound, LockState, WorkPrepared,
           Collected, Programmed, Ready, Made, FirstFailureOf, NoDuplicates, TablesProper, ProgramsOf, AllSettled,
           AllExist;
      ghost var w, s0, d0, cmds := device.world, device.progress, device.published, list.commands;
      NothingYet(w, s0, device.acquired);
      status := CollectRequests();
      UntouchedExist(d0, cmds, list.commands);
      if status != Ok {
        return;
      }
      SettledIsUntouched(cmds, list.commands);
      ghost var pending := Pending(d0, RequestKeys(cmds));
      PhasesInOrder(w, s0, pending);
      ghost var collected := requests;
      status := PreparePrograms(cmds, s0);
      TakenOnce(programs, device.held);
      if status != Ok {
        return;
      }
      ProgrammedIsReady(d0, cmds, collected, requests);
      status := CompilePrograms(s0, ProgramsOf(pending));
      if status != Ok {
        return;
      }
      ghost var ready := requests;
      status := CreatePipelines(cmds, ready);
      ExistLater(d0, list.commands, device.published.nextSerial);
      if status != Ok {
        return;
      }
      Finalize(d0, cmds, ready);
    }
  }

  /**
   resolve: serial when asked to or on a CPU device, batched otherwise. Either way it succeeds on the same inputs and
   leaves the same result; a batched failure leaves the caches and the commands that name virtual pipelines alone.
   */
  method Resolve(device: Device, list: CommandList, serialMode: bool) returns (status: Status)
    requires device.held == {} && TablesProper(device.published) && AllExist(device.published, list.commands)
    modifies list, device
    ensures status == Ok <==> Succeeds(device.world, old(device.progress), old(device.published), old(list.commands))
    ensures status == Ok ==> Resolved(old(device.published), old(list.commands), device.published, list.commands)
    ensures status == Ok ==> Outcomes(old(device.published), old(list.commands), device.published, list.commands)
    ensures serialMode || device.world.cpuDevice ==>
      status == SerialStatus(device.world, old(device.progress), old(device.published), old(list.commands))
    ensures !serialMode && !device.world.cpuDevice ==>
      status == BatchedStatus(device.world, old(device.progress), old(device.published), old(list.commands))
    ensures !serialMode && !device.world.cpuDevice && status != Ok ==>
      Untouched(old(list.commands), list.commands)
      && device.published == old(device.published).(nextSerial := device.published.nextSerial)
    ensures !serialMode && !device.world.cpuDevice ==>
      exists taken :: NoDuplicates(taken) && device.acquired == old(device.acquired) + taken
    ensures !serialMode && !device.world.cpuDevice && status == Ok ==>
      var pending := Pending(old(device.published), RequestKeys(old(list.commands)));
      && device.acquired == old(device.acquired) + ProgramsOf(pending)
      && device.progress == BatchedProgress(device.world, old(device.progress), pending)
    ensures (serialMode || device.world.cpuDevice) && status == Ok ==>
      device.progress == ProgressAfter(old(device.progress), Unresolved(old(device.published), old(list.commands)))
    ensures device.held == {} && TablesProper(device.published) && AllExist(device.published, list.commands)
    ensures old(device.published).nextSerial <= device.published.nextSerial
  {
    hide BatchedProgress, ProgressAfter, Unresolved, Pending, RequestKeys, ProgramsOf;
    hide Succeeds, Resolved, Outcomes, SerialStatus, BatchedStatus, Untouched, NoDuplicates, TablesProper,
         LockState, AllExist;
    if serialMode || device.world.cpuDevice {
      status := ResolveSerial(device, list);
      return;
    }
    var resolver := new Resolver(device, list);
    status := resolver.RunPhases();
    BatchedSucceeds(device.world, old(device.progress), old(device.published), old(list.commands));
    if status == Ok {
      ResolvedOutcomes(old(device.published), old(list.commands), device.published, list.commands);
    }
    resolver.Release();
  }

  /**
   After a successful resolve a second one, in either mode, succeeds too: it leaves the list as it is, publishes
   nothing and creates no object.
   */
  method ResolveTwice(device: Device, list: CommandList, firstSerial: bool, secondSerial: bool)
    returns (first: Status, second: Status, ghost resolved: seq<Command>, ghost published: Published)
    requires device.held == {} && TablesProper(device.published) && AllExist(device.published, list.commands)
    modifies list, device
    ensures first == Ok <==> Succeeds(device.world, old(device.progress), old(device.published), old(list.commands))
    ensures first == Ok ==> Resolved(old(device.published), old(list.commands), published, resolved)
    ensures first == Ok ==> second == Ok && list.commands == resolved && device.published == published
  {
    hide Succeeds, Resolved, TablesProper, BatchedStatus, Untouched, NoDuplicates, AllExist;
    ghost var d0, cmds := device.published, list.commands;
    first := Resolve(device, list, firstSerial);
    ghost var progress := device.progress;
    resolved, published := list.commands, device.published;
    second := Resolve(device, list, secondSerial);
    if first == Ok {
      AgainSucceeds(device.world, progress, d0, cmds, published, resolved);
      ResolvingAgain(d0, cmds, published, resolved, device.published, list.commands);
    }
  }
}
