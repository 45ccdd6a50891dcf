/** What the batched resolver computes on the way, as functions of the command list that no schedule enters. */
module ResolverSpec {
  import opened PipelineModel
  import Sequences

  /** The distinct keys that commands name, in the order of their first occurrence. */
  function RequestKeys(cmds: seq<Command>): (keys: seq<Key>)
    ensures forall k :: k in keys ==> ProperKey(k)
  {
    if cmds == [] then []
    else
      var keys, c := RequestKeys(cmds[..|cmds| - 1]), cmds[|cmds| - 1];
      if Names(c) && KeyOf(c) !in keys then keys + [KeyOf(c)] else keys
  }

  /** The commands that name a key. */
  function IndicesOf(cmds: seq<Command>, k: Key): seq<nat> {
    if cmds == [] then []
    else
      var n := |cmds| - 1;
      IndicesOf(cmds[..n], k) + if Names(cmds[n]) && KeyOf(cmds[n]) == k then [n] else []
  }

  /** The requested keys without a concrete pipeline, in order. */
  function Pending(d: Published, keys: seq<Key>): (pending: seq<Key>)
    requires forall k :: k in keys ==> ProperKey(k)
    ensures forall k :: k in pending ==> ProperKey(k)
  {
    if keys == [] then []
    else
      var n := |keys| - 1;
      Pending(d, keys[..n]) + if Lookup(d, keys[n]).None? then [keys[n]] else []
  }

  /** The distinct programs of some keys, in the order of their first occurrence. */
  function ProgramsOf(keys: seq<Key>): seq<Program>
    requires forall k :: k in keys ==> ProperKey(k)
  {
    if keys == [] then []
    else
      var n := |keys| - 1;
      var programs := ProgramsOf(keys[..n]);
      if ProgramOf(keys[n]) in programs then programs else programs + [ProgramOf(keys[n])]
  }

  lemma {:induction false} RequestKeysMeaning(cmds: seq<Command>)
    ensures Sequences.NoDuplicates(RequestKeys(cmds))
    ensures forall i :: 0 <= i < |cmds| && Names(cmds[i]) ==> KeyOf(cmds[i]) in RequestKeys(cmds)
    ensures forall k :: k in RequestKeys(cmds) ==> exists i :: 0 <= i < |cmds| && Names(cmds[i]) && KeyOf(cmds[i]) == k
  {
    if cmds != [] {
      var n := |cmds| - 1;
      var init := cmds[..n];
      RequestKeysMeaning(init);
      forall i | 0 <= i < |cmds| && Names(cmds[i]) ensures KeyOf(cmds[i]) in RequestKeys(cmds) {
        if i < n {
          assert init[i] == cmds[i];
        }
      }
      forall k | k in RequestKeys(cmds)
        ensures exists i :: 0 <= i < |cmds| && Names(cmds[i]) && KeyOf(cmds[i]) == k
      {
        if k in RequestKeys(init) {
          var i :| 0 <= i < |init| && Names(init[i]) && KeyOf(init[i]) == k;
          assert cmds[i] == init[i];
        } else {
          assert Names(cmds[n]) && KeyOf(cmds[n]) == k;
        }
      }
    }
  }

  lemma {:induction false} IndicesMeaning(cmds: seq<Command>, k: Key)
    ensures forall i :: i in IndicesOf(cmds, k) <==> 0 <= i < |cmds| && Names(cmds[i]) && KeyOf(cmds[i]) == k
  {
    if cmds != [] {
      IndicesMeaning(cmds[..|cmds| - 1], k);
    }
  }

  lemma {:induction false} PendingMeaning(d: Published, keys: seq<Key>)
    requires forall k :: k in keys ==> ProperKey(k)
    ensures forall k :: k in Pending(d, keys) <==> k in keys && Lookup(d, k).None?
    ensures Sequences.NoDuplicates(keys) ==> Sequences.NoDuplicates(Pending(d, keys))
  {
    if keys != [] {
      var n := |keys| - 1;
      PendingMeaning(d, keys[..n]);
      assert keys == keys[..n] + [keys[n]];
    }
  }

  lemma {:induction false} ProgramsMeaning(keys: seq<Key>)
    requires forall k :: k in keys ==> ProperKey(k)
    ensures Sequences.NoDuplicates(ProgramsOf(keys))
    ensures forall k :: k in keys ==> ProgramOf(k) in ProgramsOf(keys)
    ensures forall p :: p in ProgramsOf(keys) ==> exists k :: k in keys && ProgramOf(k) == p
  {
    if keys != [] {
      var n := |keys| - 1;
      ProgramsMeaning(keys[..n]);
      assert keys == keys[..n] + [keys[n]];
      forall p | p in ProgramsOf(keys) ensures exists k :: k in keys && ProgramOf(k) == p {
        if p in ProgramsOf(keys[..n]) {
          var k :| k in keys[..n] && ProgramOf(k) == p;
          assert k in keys;
        } else {
          assert keys[n] in keys && ProgramOf(keys[n]) == p;
        }
      }
    }
  }

  /** The pending keys are the unresolved ones, each once. */
  lemma PendingIsUnresolved(d: Published, cmds: seq<Command>)
    ensures forall k :: k in Pending(d, RequestKeys(cmds)) <==> k in Unresolved(d, cmds)
    ensures Sequences.NoDuplicates(Pending(d, RequestKeys(cmds)))
    ensures |Pending(d, RequestKeys(cmds))| == |Unresolved(d, cmds)|
  {
    var keys := Pending(d, RequestKeys(cmds));
    RequestKeysMeaning(cmds);
    PendingMeaning(d, RequestKeys(cmds));
    forall k ensures k in keys <==> k in Unresolved(d, cmds) {
      if k in keys {
        var i :| 0 <= i < |cmds| && Names(cmds[i]) && KeyOf(cmds[i]) == k;
      }
      if k in Unresolved(d, cmds) {
        var i :| 0 <= i < |cmds| && Names(cmds[i]) && Lookup(d, KeyOf(cmds[i])).None? && KeyOf(cmds[i]) == k;
      }
    }
    DistinctCount(keys, Unresolved(d, cmds));
  }

  lemma {:induction false} DistinctCount<T>(s: seq<T>, t: set<T>)
    requires Sequences.NoDuplicates(s) && forall x :: x in s <==> x in t
    ensures |s| == |t|
    decreases |s|
  {
    if s == [] {
      assert t == {};
    } else {
      var init, last := s[..|s| - 1], s[|s| - 1];
      assert s == init + [last];
      forall x ensures x in init <==> x in t - {last} {
        assert x in s <==> x in init || x == last;
      }
      DistinctCount(init, t - {last});
    }
  }

  // ---------- What has been specialized and compiled ----------

  function AsSet<T>(s: seq<T>): set<T> {
    set x | x in s
  }

  /** Of some programs those with entry points to compile. */
  function Installed(w: World, s: Progress, programs: seq<Program>): set<Program> {
    set p | p in programs && EntryPoints(w, s, p) > 0
  }

  /** After a batched success for some keys: a program without entry points is not marked as compiled. */
  function BatchedProgress(w: World, s: Progress, keys: seq<Key>): Progress
    requires forall k :: k in keys ==> ProperKey(k)
  {
    Progress(s.specialized + Asked(AsSet(keys)), s.compiled + Installed(w, s, ProgramsOf(keys)))
  }

  lemma InstalledSnoc(w: World, s: Progress, programs: seq<Program>, i: nat)
    requires i < |programs|
    ensures Installed(w, s, programs[..i + 1])
         == Installed(w, s, programs[..i]) + if EntryPoints(w, s, programs[i]) > 0 then {programs[i]} else {}
  {
    hide EntryPoints;
    assert programs[..i + 1] == programs[..i] + [programs[i]];
  }

  lemma NothingInstalled(w: World, s: Progress, none: seq<Program>)
    requires none == []
    ensures Installed(w, s, none) == {}
  {
  }

  lemma AskedSnoc(keys: seq<Key>, k: Key)
    requires ProperKey(k)
    ensures Asked(AsSet(keys + [k]))
         == Asked(AsSet(keys))
            + if IsSpecializable(k.pipeline.program) then {(k.pipeline.program, k.args)} else {}
  {
    assert AsSet(keys + [k]) == AsSet(keys) + {k};
    ProgressMore(Progress({}, {}), AsSet(keys), k);
  }

  /** Both modes leave the same behind but for the marks of programs without entry points. */
  lemma ProgressAgrees(w: World, s: Progress, d: Published, cmds: seq<Command>, p: Program)
    requires Succeeds(w, s, d, cmds) && !w.cpuDevice
    ensures var batched := BatchedProgress(w, s, Pending(d, RequestKeys(cmds)));
      var serial := ProgressAfter(s, Unresolved(d, cmds));
      && batched.specialized == serial.specialized
      && (p in serial.compiled
          <==> p in batched.compiled
               || (p in Built(Unresolved(d, cmds)) && w.prepare(p) == Prepared(0)))
  {
    hide Pending, RequestKeys, Unresolved, ProgramOf, KeyOf, Lookup;
    var keys := Pending(d, RequestKeys(cmds));
    PendingIsUnresolved(d, cmds);
    ProgramsMeaning(keys);
    assert AsSet(keys) == Unresolved(d, cmds);
    if p in Built(Unresolved(d, cmds)) {
      var k :| k in Unresolved(d, cmds) && ProperKey(k) && ProgramOf(k) == p;
      UnresolvedOk(w, s, d, cmds, k);
    }
  }

  lemma UnresolvedOk(w: World, s: Progress, d: Published, cmds: seq<Command>, k: Key)
    requires Succeeds(w, s, d, cmds) && k in Unresolved(d, cmds)
    ensures KeyOk(w, s, k)
  {
  }

  // ---------- The status of each phase ----------

  /** The first failure, in order, decides. */
  function FirstFailure(results: seq<Status>): Status {
    if results == [] then Ok
    else
      var r := FirstFailure(results[..|results| - 1]);
      if r != Ok then r else results[|results| - 1]
  }

  lemma {:induction false} FirstFailureOk(results: seq<Status>)
    ensures FirstFailure(results) == Ok <==> forall i :: 0 <= i < |results| ==> results[i] == Ok
  {
    if results != [] {
      FirstFailureOk(results[..|results| - 1]);
    }
  }

  lemma FirstFailureSnoc(results: seq<Status>, r: Status)
    ensures FirstFailure(results + [r]) == if FirstFailure(results) != Ok then FirstFailure(results) else r
  {
    assert (results + [r])[..|results|] == results;
  }

  /** Specialization and preparation for one key. */
  function KeyPrepare(w: World, s: Progress, k: Key): Status {
    if !ProperKey(k) then Ok
    else
      var p := k.pipeline.program;
      if IsSpecializable(p) && (p, k.args) !in s.specialized && w.specialize(p, k.args) != Ok then
        w.specialize(p, k.args)
      else if ProgramOf(k) in s.compiled then Ok
      else match w.prepare(ProgramOf(k))
           case Prepared(_) => Ok
           case PrepareFailed(code) => Fail(code)
  }

  function EntryPoints(w: World, s: Progress, p: Program): nat {
    if p in s.compiled || w.prepare(p).PrepareFailed? then 0 else w.prepare(p).entryPoints
  }

  /** The results of compiling the first n entry points. */
  function EntryResults(w: World, p: Program, n: nat): seq<Status> {
    if n == 0 then [] else EntryResults(w, p, n - 1) + [w.compile(p, n - 1)]
  }

  function ProgramCompile(w: World, s: Progress, p: Program): Status {
    FirstFailure(EntryResults(w, p, EntryPoints(w, s, p)))
  }

  function ProgramInstall(w: World, s: Progress, p: Program): Status {
    if EntryPoints(w, s, p) == 0 then Ok else w.install(p)
  }

  function KeyCreate(w: World, k: Key): Status {
    if ProperKey(k) then w.create(k.pipeline, ProgramOf(k)) else Ok
  }

  /** The first failure of a list of items, each with its own result. */
  function FirstFailureOf<T>(items: seq<T>, result: T -> Status): Status {
    if items == [] then Ok
    else
      var r := FirstFailureOf(items[..|items| - 1], result);
      if r != Ok then r else result(items[|items| - 1])
  }

  lemma {:induction false} FirstFailureOfOk<T>(items: seq<T>, result: T -> Status)
    ensures FirstFailureOf(items, result) == Ok <==> forall x :: x in items ==> result(x) == Ok
  {
    if items != [] {
      var init := items[..|items| - 1];
      FirstFailureOfOk(init, result);
      assert items == init + [items[|items| - 1]];
    }
  }

  lemma {:induction false} EntryResultsOk(w: World, p: Program, n: nat)
    ensures |EntryResults(w, p, n)| == n
    ensures FirstFailure(EntryResults(w, p, n)) == Ok <==> forall j :: 0 <= j < n ==> w.compile(p, j) == Ok
  {
    if n > 0 {
      EntryResultsOk(w, p, n - 1);
      FirstFailureSnoc(EntryResults(w, p, n - 1), w.compile(p, n - 1));
    }
  }

  lemma FirstFailureOfSnoc<T>(items: seq<T>, x: T, result: T -> Status)
    ensures FirstFailureOf(items + [x], result)
         == if FirstFailureOf(items, result) != Ok then FirstFailureOf(items, result) else result(x)
  {
    assert (items + [x])[..|items|] == items;
  }

  // What each phase asks of one key or one program.
  function Preparing(w: World, s: Progress): Key -> Status { k => KeyPrepare(w, s, k) }
  function Compiling(w: World, s: Progress): Program -> Status { p => ProgramCompile(w, s, p) }
  function Installing(w: World, s: Progress): Program -> Status { p => ProgramInstall(w, s, p) }
  function Creating(w: World): Key -> Status { k => KeyCreate(w, k) }

  /** The status of the phases for some keys: the first phase that fails, by its first failure in order. */
  function PhasesStatus(w: World, s: Progress, keys: seq<Key>): Status
    requires forall k :: k in keys ==> ProperKey(k)
  {
    var programs := ProgramsOf(keys);
    var prepared := FirstFailureOf(keys, Preparing(w, s));
    var compiled := FirstFailureOf(programs, Compiling(w, s));
    var installed := FirstFailureOf(programs, Installing(w, s));
    if prepared != Ok then prepared
    else if compiled != Ok then compiled
    else if installed != Ok then installed
    else FirstFailureOf(keys, Creating(w))
  }

  /** The status of a batched resolution: a function of the inputs, whatever order tasks complete in. */
  function BatchedStatus(w: World, s: Progress, d: Published, cmds: seq<Command>): Status {
    if exists i :: 0 <= i < |cmds| && MissingArgs(cmds[i]) then SLANG_FAIL
    else
      PhasesStatus(w, s, Pending(d, RequestKeys(cmds)))
  }

  /** The batched path succeeds on exactly the inputs on which the serial path succeeds. */
  lemma BatchedSucceeds(w: World, s: Progress, d: Published, cmds: seq<Command>)
    requires !w.cpuDevice
    ensures BatchedStatus(w, s, d, cmds) == Ok <==> Succeeds(w, s, d, cmds)
  {
    hide RequestKeys, Pending, PhasesStatus, KeyOk, Unresolved, Lookup, KeyOf;
    RequestKeysMeaning(cmds);
    var keys := Pending(d, RequestKeys(cmds));
    PendingMeaning(d, RequestKeys(cmds));
    PendingIsUnresolved(d, cmds);
    PhasesOk(w, s, keys);
    KeysOfCommands(w, s, d, cmds, keys);
  }

  ghost predicate AllOk(w: World, s: Progress, keys: seq<Key>)
    requires forall k :: k in keys ==> ProperKey(k)
  {
    forall k :: k in keys ==> KeyOk(w, s, k)
  }

  lemma KeysOfCommands(w: World, s: Progress, d: Published, cmds: seq<Command>, keys: seq<Key>)
    requires forall k :: k in keys <==> k in Unresolved(d, cmds)
    requires forall k :: k in keys ==> ProperKey(k)
    ensures AllOk(w, s, keys)
       <==> (forall i :: 0 <= i < |cmds| && Names(cmds[i]) && Lookup(d, KeyOf(cmds[i])).None? ==>
                  KeyOk(w, s, KeyOf(cmds[i])))
  {
    hide KeyOk;
    if AllOk(w, s, keys) {
      forall i | 0 <= i < |cmds| && Names(cmds[i]) && Lookup(d, KeyOf(cmds[i])).None?
        ensures KeyOk(w, s, KeyOf(cmds[i]))
      {
        assert KeyOf(cmds[i]) in Unresolved(d, cmds);
      }
    } else {
      var k :| k in keys && !KeyOk(w, s, k);
      var i :| 0 <= i < |cmds| && Names(cmds[i]) && Lookup(d, KeyOf(cmds[i])).None? && KeyOf(cmds[i]) == k;
    }
  }

  lemma PhasesOk(w: World, s: Progress, keys: seq<Key>)
    requires !w.cpuDevice && forall k :: k in keys ==> ProperKey(k)
    ensures PhasesStatus(w, s, keys) == Ok <==> AllOk(w, s, keys)
  {
    hide KeyOk, KeyPrepare, ProgramCompile, ProgramInstall, KeyCreate, ProgramOf, ProgramsOf, FirstFailureOf;
    var programs := ProgramsOf(keys);
    ProgramsMeaning(keys);
    FirstFailureOfOk(keys, Preparing(w, s));
    FirstFailureOfOk(programs, Compiling(w, s));
    FirstFailureOfOk(programs, Installing(w, s));
    FirstFailureOfOk(keys, Creating(w));
    forall k | k in keys
      ensures KeyOk(w, s, k) <==> KeyPrepare(w, s, k) == Ok && ProgramCompile(w, s, ProgramOf(k)) == Ok
                                  && ProgramInstall(w, s, ProgramOf(k)) == Ok && KeyCreate(w, k) == Ok
    {
      OneKeyOk(w, s, k);
    }
    assert forall k :: k in keys ==> Preparing(w, s)(k) == KeyPrepare(w, s, k) && Creating(w)(k) == KeyCreate(w, k);
    assert forall p :: p in programs ==> Compiling(w, s)(p) == ProgramCompile(w, s, p)
                                         && Installing(w, s)(p) == ProgramInstall(w, s, p);
  }

  lemma OneKeyOk(w: World, s: Progress, k: Key)
    requires !w.cpuDevice && ProperKey(k)
    ensures KeyOk(w, s, k) <==> KeyPrepare(w, s, k) == Ok && ProgramCompile(w, s, ProgramOf(k)) == Ok
                                && ProgramInstall(w, s, ProgramOf(k)) == Ok && KeyCreate(w, k) == Ok
  {
    hide EntryResults, FirstFailure;
    EntryResultsOk(w, ProgramOf(k), EntryPoints(w, s, ProgramOf(k)));
  }
}
