/**
 * The ordered exec bundles of clabgen/s88/site/node_runtime.py.  A node's
 * commands are cut into bundles that Containerlab starts concurrently.  A bundle
 * polls for the marker of its predecessor, runs its commands under `set -e`, and
 * publishes its own marker; a marker carries the container generation.
 */
module ExecBundles {
  import opened Arithmetic
  import opened Common

  const WAIT_ATTEMPTS: nat := 600

  /** One `sh -e -c` script: its number, the bundle whose marker it waits for, its commands. */
  datatype Bundle = Bundle(number: nat, waitsFor: Option<nat>, chunk: seq<string>)

  datatype BundleError = NonPositiveBundleSize

  /** The characters `str.strip` removes. */
  predicate IsSpace(c: char) {
    var n := c as int;
    || 9 <= n <= 13 || 28 <= n <= 32 || n == 0x85 || n == 0xA0 || n == 0x1680
    || 0x2000 <= n <= 0x200A || n in {0x2028, 0x2029, 0x202F, 0x205F, 0x3000}
  }

  predicate IsBlank(cmd: string) {
    forall c | c in cmd :: IsSpace(c)
  }

  function NonBlank(cmds: seq<string>): seq<string> {
    if cmds == [] then []
    else (if IsBlank(cmds[0]) then [] else [cmds[0]]) + NonBlank(cmds[1..])
  }

  function Flat(bundles: seq<Bundle>): seq<string> {
    if bundles == [] then []
    else Flat(bundles[..|bundles| - 1]) + bundles[|bundles| - 1].chunk
  }

  /** Bundles are numbered from 1 and each waits for the one before it. */
  predicate Chained(bundles: seq<Bundle>) {
    forall i | 0 <= i < |bundles| ::
      bundles[i].number == i + 1 && bundles[i].waitsFor == if i == 0 then None else Some(i)
  }

  /** `bundles` cuts `commands` into full chunks, only the last one possibly shorter. */
  predicate Cut(commands: seq<string>, size: nat, bundles: seq<Bundle>) {
    && Chained(bundles)
    && Flat(bundles) == commands
    && (forall i | 0 <= i < |bundles| :: 0 < |bundles[i].chunk| <= size)
    && (forall i | 0 <= i < |bundles| - 1 :: |bundles[i].chunk| == size)
  }

  /** `start` is where chunk number `done` begins. */
  ghost predicate ChunkStart(start: nat, size: nat, done: nat) {
    start == done * size
  }

  /** The number the source computes from a chunk's start index. */
  function BundleNumber(start: nat, size: nat): nat
    requires size > 0
  {
    start / size + 1
  }

  lemma ChunkNumber(start: nat, size: nat, done: nat)
    requires size > 0 && ChunkStart(start, size, done)
    ensures BundleNumber(start, size) == done + 1
    ensures ChunkStart(start + size, size, done + 1)
  {
    Division(start, done, size, 0);
    assert start + size == (done + 1) * size;
  }

  lemma CutAppend(commands: seq<string>, size: nat, bundled: seq<Bundle>, bundle: Bundle)
    requires Cut(commands, size, bundled)
    requires forall i | 0 <= i < |bundled| :: |bundled[i].chunk| == size
    requires bundle.number == |bundled| + 1
    requires bundle.waitsFor == if bundled == [] then None else Some(|bundled|)
    requires 0 < |bundle.chunk| <= size
    ensures Cut(commands + bundle.chunk, size, bundled + [bundle])
  {
    FlatAppend(bundled, bundle);
    hide Flat;
  }

  lemma FlatAppend(bundles: seq<Bundle>, bundle: Bundle)
    ensures Flat(bundles + [bundle]) == Flat(bundles) + bundle.chunk
  {
    assert (bundles + [bundle])[..|bundles|] == bundles;
  }

  /** What the first `|bundled|` rounds of the loop have done once `start` is reached. */
  ghost predicate CutUpTo(commands: seq<string>, size: nat, start: nat, bundled: seq<Bundle>) {
    && ChunkStart(start, size, |bundled|)
    && (start >= |commands| ==> Cut(commands, size, bundled))
    && (start < |commands| ==>
          Cut(commands[..start], size, bundled) && forall i | 0 <= i < |bundled| :: |bundled[i].chunk| == size)
  }

  lemma CutUpToNothing(commands: seq<string>, size: nat)
    requires commands != []
    ensures CutUpTo(commands, size, 0, [])
  {
  }

  lemma CutUpToNext(commands: seq<string>, size: nat, start: nat, bundled: seq<Bundle>, bundle: Bundle)
    requires size > 0 && start < |commands| && CutUpTo(commands, size, start, bundled)
    requires bundle.number == BundleNumber(start, size)
    requires bundle.waitsFor == if bundle.number > 1 then Some(bundle.number - 1) else None
    requires bundle.chunk == commands[start..if start + size < |commands| then start + size else |commands|]
    ensures CutUpTo(commands, size, start + size, bundled + [bundle])
  {
    ChunkNumber(start, size, |bundled|);
    hide ChunkStart, BundleNumber, Cut;
    CutAppend(commands[..start], size, bundled, bundle);
    assert commands[..start] + bundle.chunk == commands[..start + |bundle.chunk|];
    assert start + size >= |commands| ==> commands[..start + |bundle.chunk|] == commands;
  }

  lemma CutUpToAll(commands: seq<string>, size: nat, start: nat, bundled: seq<Bundle>)
    requires start >= |commands| && CutUpTo(commands, size, start, bundled)
    ensures Cut(commands, size, bundled)
  {
  }

  method BundleExecCommands(execCmds: seq<string>, bundleSize: int)
      returns (r: Result<seq<Bundle>, BundleError>)
    ensures r.Err? <==> NonBlank(execCmds) != [] && bundleSize < 1
    ensures r.Ok? && NonBlank(execCmds) == [] ==> r.value == []
    ensures r.Ok? && NonBlank(execCmds) != [] ==> Cut(NonBlank(execCmds), bundleSize, r.value)
  {
    hide CutUpTo, ChunkStart, BundleNumber, Cut, NonBlank, Flat;
    var commands := NonBlank(execCmds);
    if commands == [] {
      return Ok([]);
    }
    if bundleSize < 1 {
      return Err(NonPositiveBundleSize);
    }
    var bundled: seq<Bundle> := [];
    var total := |commands|;
    var start := 0;
    CutUpToNothing(commands, bundleSize);
    while start < total
      invariant start >= 0 && CutUpTo(commands, bundleSize, start, bundled)
      decreases total - start
    {
      var end := if start + bundleSize < total then start + bundleSize else total;
      var chunk := commands[start..end];
      var number := BundleNumber(start, bundleSize);
      var bundle := Bundle(number, if number > 1 then Some(number - 1) else None, chunk);
      CutUpToNext(commands, bundleSize, start, bundled, bundle);
      bundled := bundled + [bundle];
      start := start + bundleSize;
    }
    CutUpToAll(commands, bundleSize, start, bundled);
    return Ok(bundled);
  }

  // ---------------------------------------------------------------- the protocol

  /** `Failed(ran)` remembers how many of its commands the bundle had begun. */
  datatype Phase = NotStarted | Waiting(polls: nat) | Running(pc: nat) | Done | Failed(ran: nat)

  /** Markers outlive a restart; `log` holds the commands begun in this generation. */
  datatype State = State(
    generation: nat, markers: set<(nat, nat)>, phases: seq<Phase>, log: seq<string>)

  datatype Action =
    | Start(i: nat)
    | Poll(i: nat)
    | Command(i: nat, ok: bool)
    | Publish(i: nat, ok: bool)
    | Restart(generation: nat)

  ghost predicate FreshGeneration(generation: nat, markers: set<(nat, nat)>) {
    forall n: nat :: (generation, n) !in markers
  }

  /** Every bundle script has just been handed to the container. */
  ghost predicate Initial(bundles: seq<Bundle>, s: State) {
    && |s.phases| == |bundles|
    && (forall i | 0 <= i < |s.phases| :: s.phases[i] == NotStarted)
    && s.log == []
  }

  ghost predicate Enabled(bundles: seq<Bundle>, s: State, a: Action)
    requires |s.phases| == |bundles|
  {
    match a
    case Start(i) => i < |bundles| && s.phases[i] == NotStarted
    case Poll(i) => i < |bundles| && s.phases[i].Waiting? && bundles[i].waitsFor.Some?
    case Command(i, _) => i < |bundles| && s.phases[i].Running? && s.phases[i].pc < |bundles[i].chunk|
    case Publish(i, _) => i < |bundles| && s.phases[i].Running? && s.phases[i].pc >= |bundles[i].chunk|
    case Restart(g) => FreshGeneration(g, s.markers)
  }

  /** One atomic step of one script, or a restart that kills them all and keeps /tmp. */
  ghost function Step(bundles: seq<Bundle>, s: State, a: Action): (s': State)
    requires |s.phases| == |bundles| && Enabled(bundles, s, a)
    ensures |s'.phases| == |bundles|
  {
    match a
    case Start(i) =>
      s.(phases := s.phases[i := if bundles[i].waitsFor.None? then Running(0) else Waiting(0)])
    case Poll(i) =>
      var polls := s.phases[i].polls;
      if (s.generation, bundles[i].waitsFor.value) in s.markers then s.(phases := s.phases[i := Running(0)])
      else if polls + 1 < WAIT_ATTEMPTS then s.(phases := s.phases[i := Waiting(polls + 1)])
      else s.(phases := s.phases[i := Failed(0)])
    case Command(i, ok) =>
      var pc := s.phases[i].pc;
      s.(log := s.log + [bundles[i].chunk[pc]],
         phases := s.phases[i := if ok then Running(pc + 1) else Failed(pc + 1)])
    case Publish(i, ok) =>
      if ok then s.(markers := s.markers + {(s.generation, bundles[i].number)}, phases := s.phases[i := Done])
      else s.(phases := s.phases[i := Failed(s.phases[i].pc)])
    case Restart(g) =>
      State(g, s.markers, seq(|bundles|, _ => NotStarted), [])
  }

  ghost predicate Runs(bundles: seq<Bundle>, s: State, actions: seq<Action>)
    requires |s.phases| == |bundles|
    decreases |actions|
  {
    actions == [] ||
    (Enabled(bundles, s, actions[0]) && Runs(bundles, Step(bundles, s, actions[0]), actions[1..]))
  }

  ghost function After(bundles: seq<Bundle>, s: State, actions: seq<Action>): (s': State)
    requires |s.phases| == |bundles| && Runs(bundles, s, actions)
    ensures |s'.phases| == |bundles|
    decreases |actions|
  {
    if actions == [] then s else After(bundles, Step(bundles, s, actions[0]), actions[1..])
  }

  predicate NoRestart(actions: seq<Action>) {
    forall a | a in actions :: !a.Restart?
  }

  // ------------------------------------------------------------- the invariant

  function Begun(p: Phase): nat {
    match p
    case Running(pc) => pc
    case Failed(ran) => ran
    case _ => 0
  }

  /** Bundles before `k` are done and have their markers, bundles after it have run nothing. */
  ghost predicate PhasesAt(bundles: seq<Bundle>, s: State, k: nat) {
    && Chained(bundles) && |s.phases| == |bundles| && k <= |bundles|
    && (forall i | 0 <= i < |bundles| :: PhaseAt(bundles[i], s, i, k))
  }

  ghost predicate PhaseAt(bundle: Bundle, s: State, i: nat, k: nat)
    requires i < |s.phases|
  {
    && (s.phases[i].Done? <==> i < k)
    && ((s.generation, i + 1) in s.markers <==> i < k)
    && Begun(s.phases[i]) <= |bundle.chunk|
    && (i == 0 ==> !s.phases[i].Waiting?)
    && (i > k ==> !s.phases[i].Running? && Begun(s.phases[i]) == 0)
  }

  ghost function LogAt(bundles: seq<Bundle>, s: State, k: nat): seq<string>
    requires PhasesAt(bundles, s, k)
  {
    Flat(bundles[..k]) + (if k < |bundles| then bundles[k].chunk[..Begun(s.phases[k])] else [])
  }

  ghost predicate InvAt(bundles: seq<Bundle>, s: State, k: nat) {
    PhasesAt(bundles, s, k) && s.log == LogAt(bundles, s, k)
  }

  function Frontier(s: State, a: Action, k: nat): nat {
    match a
    case Publish(_, true) => k + 1
    case Restart(_) => 0
    case _ => k
  }

  lemma InvInitial(bundles: seq<Bundle>, s: State)
    requires Chained(bundles) && Initial(bundles, s) && FreshGeneration(s.generation, s.markers)
    ensures InvAt(bundles, s, 0)
  {
  }

  lemma PhasesStep(bundles: seq<Bundle>, s: State, a: Action, k: nat)
    requires PhasesAt(bundles, s, k) && Enabled(bundles, s, a)
    ensures PhasesAt(bundles, Step(bundles, s, a), Frontier(s, a, k))
    ensures a.Command? || a.Publish? ==> a.i == k
  {
    match a
    case Poll(i) => PollKeepsPhases(bundles, s, i, k);
    case Publish(i, ok) => PublishKeepsPhases(bundles, s, i, ok, k);
    case Start(i) => OnePhaseMoves(bundles, s, Step(bundles, s, a), i, k);
    case Command(i, ok) => OnePhaseMoves(bundles, s, Step(bundles, s, a), i, k);
    case Restart(_) =>
      hide Flat;
  }

  /** A bundle that neither finishes nor overtakes the frontier moves alone. */
  lemma OnePhaseMoves(bundles: seq<Bundle>, s: State, s': State, i: nat, k: nat)
    requires PhasesAt(bundles, s, k) && i < |bundles|
    requires s'.generation == s.generation && s'.markers == s.markers
    requires |s'.phases| == |bundles| && s'.phases == s.phases[i := s'.phases[i]]
    requires PhaseAt(bundles[i], s', i, k)
    ensures PhasesAt(bundles, s', k)
  {
    hide Flat, Begun;
    forall j | 0 <= j < |bundles|
      ensures PhaseAt(bundles[j], s', j, k)
    {
      assert j != i ==> s'.phases[j] == s.phases[j];
    }
  }

  lemma PollKeepsPhases(bundles: seq<Bundle>, s: State, i: nat, k: nat)
    requires PhasesAt(bundles, s, k) && Enabled(bundles, s, Poll(i))
    ensures PhasesAt(bundles, Step(bundles, s, Poll(i)), k)
  {
    var s' := Step(bundles, s, Poll(i));
    assert PhaseAt(bundles[i], s, i, k) && i > 0;
    assert PhaseAt(bundles[i - 1], s, i - 1, k);
    OnePhaseMoves(bundles, s, s', i, k);
  }

  lemma PublishKeepsPhases(bundles: seq<Bundle>, s: State, i: nat, ok: bool, k: nat)
    requires PhasesAt(bundles, s, k) && Enabled(bundles, s, Publish(i, ok))
    ensures i == k && PhasesAt(bundles, Step(bundles, s, Publish(i, ok)), if ok then k + 1 else k)
  {
    var s', k' := Step(bundles, s, Publish(i, ok)), if ok then k + 1 else k;
    assert i == k && bundles[i].number == i + 1;
    forall j | 0 <= j < |bundles|
      ensures PhaseAt(bundles[j], s', j, k')
    {
      assert j != i ==> s'.phases[j] == s.phases[j];
    }
  }

  lemma InvStep(bundles: seq<Bundle>, s: State, a: Action, k: nat)
    requires InvAt(bundles, s, k) && Enabled(bundles, s, a)
    ensures InvAt(bundles, Step(bundles, s, a), Frontier(s, a, k))
  {
    PhasesStep(bundles, s, a, k);
    match a
    case Command(i, ok) => CommandExtendsLog(bundles, s, i, ok);
    case Publish(i, ok) => PublishKeepsLog(bundles, s, i, ok);
    case _ =>
      hide Flat;
  }

  lemma CommandExtendsLog(bundles: seq<Bundle>, s: State, i: nat, ok: bool)
    requires InvAt(bundles, s, i) && Enabled(bundles, s, Command(i, ok))
    requires PhasesAt(bundles, Step(bundles, s, Command(i, ok)), i)
    ensures InvAt(bundles, Step(bundles, s, Command(i, ok)), i)
  {
    hide Flat;
    var pc := s.phases[i].pc;
    assert i < |bundles|;
    hide PhasesAt;
    assert bundles[i].chunk[..pc] + [bundles[i].chunk[pc]] == bundles[i].chunk[..pc + 1];
  }

  lemma PublishKeepsLog(bundles: seq<Bundle>, s: State, i: nat, ok: bool)
    requires InvAt(bundles, s, i) && Enabled(bundles, s, Publish(i, ok))
    requires PhasesAt(bundles, Step(bundles, s, Publish(i, ok)), if ok then i + 1 else i)
    ensures InvAt(bundles, Step(bundles, s, Publish(i, ok)), if ok then i + 1 else i)
  {
    if ok {
      assert bundles[..i + 1][..i] == bundles[..i];
      assert bundles[i].chunk[..s.phases[i].pc] == bundles[i].chunk;
    }
  }

  lemma {:induction false} InvAfter(bundles: seq<Bundle>, s: State, actions: seq<Action>, k: nat)
      returns (k': nat)
    requires InvAt(bundles, s, k) && Runs(bundles, s, actions)
    ensures InvAt(bundles, After(bundles, s, actions), k')
    decreases |actions|
  {
    if actions == [] {
      k' := k;
    } else {
      InvStep(bundles, s, actions[0], k);
      k' := InvAfter(bundles, Step(bundles, s, actions[0]), actions[1..], Frontier(s, actions[0], k));
    }
  }

  lemma {:induction false} FlatPrefix(bundles: seq<Bundle>, i: nat, j: nat)
    requires i <= j <= |bundles|
    ensures Flat(bundles[..i]) <= Flat(bundles[..j])
    decreases j
  {
    if i < j {
      FlatPrefix(bundles, i, j - 1);
      assert bundles[..j][..j - 1] == bundles[..j - 1];
    }
  }

  // ------------------------------------------------------------------ theorems

  /**
   * Whatever the interleaving and the number of restarts, the commands begun in
   * the current generation are a prefix of the whole list, and at most one bundle
   * is past its wait.
   */
  lemma OrderedExecution(
      bundles: seq<Bundle>, s: State, actions: seq<Action>)
    requires Chained(bundles) && Initial(bundles, s) && FreshGeneration(s.generation, s.markers)
    requires Runs(bundles, s, actions)
    ensures After(bundles, s, actions).log <= Flat(bundles)
    ensures AtMostOneRunning(After(bundles, s, actions))
  {
    InvInitial(bundles, s);
    var k := InvAfter(bundles, s, actions, 0);
    LogIsPrefix(bundles, After(bundles, s, actions), k);
    OneRunsAtMost(bundles, After(bundles, s, actions), k);
  }

  lemma OneRunsAtMost(bundles: seq<Bundle>, s: State, k: nat)
    requires PhasesAt(bundles, s, k)
    ensures AtMostOneRunning(s)
  {
    forall i, j | 0 <= i < j < |s.phases|
      ensures !(s.phases[i].Running? && s.phases[j].Running?)
    {
      assert PhaseAt(bundles[i], s, i, k) && PhaseAt(bundles[j], s, j, k);
    }
  }

  predicate AtMostOneRunning(s: State) {
    forall i, j | 0 <= i < j < |s.phases| :: !(s.phases[i].Running? && s.phases[j].Running?)
  }

  lemma LogIsPrefix(bundles: seq<Bundle>, s: State, k: nat)
    requires InvAt(bundles, s, k)
    ensures s.log <= Flat(bundles)
  {
    assert bundles[..|bundles|] == bundles;
    if k < |bundles| {
      FlatPrefix(bundles, k + 1, |bundles|);
      assert bundles[..k + 1][..k] == bundles[..k];
    }
  }

  lemma RunsCons(bundles: seq<Bundle>, s: State, a: Action, rest: seq<Action>)
    requires |s.phases| == |bundles| && Enabled(bundles, s, a) && Runs(bundles, Step(bundles, s, a), rest)
    ensures Runs(bundles, s, [a] + rest)
    ensures After(bundles, s, [a] + rest) == After(bundles, Step(bundles, s, a), rest)
  {
    assert ([a] + rest)[1..] == rest;
  }

  /** With a left-over marker of this very generation a later bundle overtakes the first. */
  lemma StaleMarkerRun(bundles: seq<Bundle>, s: State, n: nat) returns (bad: seq<Action>)
    requires Chained(bundles) && Initial(bundles, s)
    requires 1 <= n < |bundles| && (s.generation, n) in s.markers
    ensures Runs(bundles, s, bad) && !AtMostOneRunning(After(bundles, s, bad))
  {
    var s1 := Step(bundles, s, Start(0));
    var s2 := Step(bundles, s1, Start(n));
    var s3 := Step(bundles, s2, Poll(n));
    assert s3.phases[0].Running? && s3.phases[n].Running?;
    RunsCons(bundles, s2, Poll(n), []);
    RunsCons(bundles, s1, Start(n), [Poll(n)]);
    RunsCons(bundles, s, Start(0), [Start(n)] + [Poll(n)]);
    bad := [Start(0)] + ([Start(n)] + [Poll(n)]);
  }

  /**
   * Scoping the markers by generation is what the order rests on: mutual
   * exclusion holds over all runs exactly when no marker of the starting
   * generation names a bundle that another one waits for.
   */
  lemma ExclusionNeedsFreshMarkers(bundles: seq<Bundle>, s: State)
    requires Chained(bundles) && Initial(bundles, s)
    ensures (forall actions | Runs(bundles, s, actions) :: AtMostOneRunning(After(bundles, s, actions)))
       <==> (forall n | 1 <= n < |bundles| :: (s.generation, n) !in s.markers)
  {
    if n :| 1 <= n < |bundles| && (s.generation, n) in s.markers {
      var bad := StaleMarkerRun(bundles, s, n);
    } else {
      forall actions | Runs(bundles, s, actions)
        ensures AtMostOneRunning(After(bundles, s, actions))
      {
        ExclusionAfter(bundles, s, actions);
      }
    }
  }

  /** Markers that no bundle waits for cannot matter: dropping them simulates the run. */
  ghost predicate Same(bundles: seq<Bundle>, s: State, t: State) {
    && s.generation == t.generation && s.phases == t.phases && s.log == t.log
    && (forall m | m in t.markers :: m in s.markers)
    && (forall n | 1 <= n < |bundles| :: (s.generation, n) in s.markers <==> (t.generation, n) in t.markers)
  }

  lemma {:induction false} Simulates(bundles: seq<Bundle>, s: State, t: State, actions: seq<Action>)
    requires Chained(bundles) && |s.phases| == |bundles| && Same(bundles, s, t) && Runs(bundles, s, actions)
    ensures Runs(bundles, t, actions) && After(bundles, s, actions).phases == After(bundles, t, actions).phases
    decreases |actions|
  {
    if actions != [] {
      var a := actions[0];
      assert Enabled(bundles, t, a);
      var s', t' := Step(bundles, s, a), Step(bundles, t, a);
      assert Same(bundles, s', t');
      Simulates(bundles, s', t', actions[1..]);
    }
  }

  lemma ExclusionAfter(bundles: seq<Bundle>, s: State, actions: seq<Action>)
    requires Chained(bundles) && Initial(bundles, s) && Runs(bundles, s, actions)
    requires forall n | 1 <= n < |bundles| :: (s.generation, n) !in s.markers
    ensures AtMostOneRunning(After(bundles, s, actions))
  {
    var t := s.(markers := set m | m in s.markers && m.0 != s.generation);
    Simulates(bundles, s, t, actions);
    OrderedExecution(bundles, t, actions);
  }

  // Termination: a potential that every step except a restart lowers.

  function Potential(chunk: seq<string>, p: Phase): nat {
    match p
    case NotStarted => WAIT_ATTEMPTS + |chunk| + 3
    case Waiting(polls) => (if polls < WAIT_ATTEMPTS then WAIT_ATTEMPTS - polls else 0) + |chunk| + 2
    case Running(pc) => (if pc < |chunk| then |chunk| - pc else 0) + 1
    case _ => 0
  }

  function TotalPotential(bundles: seq<Bundle>, phases: seq<Phase>): nat
    requires |bundles| == |phases|
  {
    if bundles == [] then 0
    else Potential(bundles[0].chunk, phases[0]) + TotalPotential(bundles[1..], phases[1..])
  }

  lemma {:induction false} PotentialUpdate(bundles: seq<Bundle>, phases: seq<Phase>, i: nat, p: Phase)
    requires |bundles| == |phases| && i < |phases|
    ensures TotalPotential(bundles, phases[i := p])
         == TotalPotential(bundles, phases) - Potential(bundles[i].chunk, phases[i]) + Potential(bundles[i].chunk, p)
  {
    if i == 0 {
      assert phases[i := p][1..] == phases[1..];
    } else {
      assert phases[i := p][1..] == phases[1..][i - 1 := p];
      PotentialUpdate(bundles[1..], phases[1..], i - 1, p);
    }
  }

  /** Polls left plus commands left bounds the length of every run of one generation. */
  lemma {:induction false} GenerationTerminates(bundles: seq<Bundle>, s: State, actions: seq<Action>)
    requires |s.phases| == |bundles| && Runs(bundles, s, actions) && NoRestart(actions)
    ensures |actions| + TotalPotential(bundles, After(bundles, s, actions).phases)
         <= TotalPotential(bundles, s.phases)
    decreases |actions|
  {
    if actions != [] {
      var a := actions[0];
      var s' := Step(bundles, s, a);
      assert a in actions;
      PotentialUpdate(bundles, s.phases, a.i, s'.phases[a.i]);
      assert s'.phases == s.phases[a.i := s'.phases[a.i]];
      GenerationTerminates(bundles, s', actions[1..]);
    }
  }

  lemma {:induction false} FailureIsFinal(bundles: seq<Bundle>, s: State, actions: seq<Action>, i: nat)
    requires |s.phases| == |bundles| && Runs(bundles, s, actions) && NoRestart(actions)
    requires i < |bundles| && s.phases[i].Failed?
    ensures After(bundles, s, actions).phases[i] == s.phases[i]
    decreases |actions|
  {
    if actions != [] {
      assert actions[0] in actions;
      FailureIsFinal(bundles, Step(bundles, s, actions[0]), actions[1..], i);
    }
  }

  /** The commands up to and including the last one bundle `i` had begun when it failed. */
  function UpToFailure(bundles: seq<Bundle>, i: nat, ran: nat): seq<string>
    requires i < |bundles| && ran <= |bundles[i].chunk|
  {
    Flat(bundles[..i]) + bundles[i].chunk[..ran]
  }

  lemma FailedBundleBoundsLog(bundles: seq<Bundle>, s: State, k: nat, i: nat)
    requires InvAt(bundles, s, k) && i < |bundles| && s.phases[i].Failed?
    ensures s.phases[i].ran <= |bundles[i].chunk|
    ensures s.log <= UpToFailure(bundles, i, s.phases[i].ran)
  {
    assert k <= i;
    if k < i {
      FlatPrefix(bundles, k + 1, i);
      assert bundles[..k + 1][..k] == bundles[..k];
      assert s.log <= Flat(bundles[..k + 1]);
    }
  }

  /** What has failed stays within the commands the bundle had begun, and publishes nothing. */
  lemma FailedPhaseBounds(bundles: seq<Bundle>, s: State, actions: seq<Action>, k: nat, i: nat)
    requires InvAt(bundles, s, k) && Runs(bundles, s, actions) && NoRestart(actions)
    requires i < |bundles| && s.phases[i].Failed?
    ensures s.phases[i].ran <= |bundles[i].chunk|
    ensures After(bundles, s, actions).log <= UpToFailure(bundles, i, s.phases[i].ran)
    ensures s.log <= After(bundles, s, actions).log
    ensures (s.generation, i + 1) !in After(bundles, s, actions).markers
  {
    hide Flat, LogAt;
    assert |s.phases| == |bundles|;
    FailureIsFinal(bundles, s, actions, i);
    LogGrows(bundles, s, actions);
    hide PhasesAt;
    var k' := InvAfter(bundles, s, actions, k);
    FailedBundleBoundsLog(bundles, After(bundles, s, actions), k', i);
    FailedIsUnpublished(bundles, After(bundles, s, actions), k', i);
  }

  lemma FailedIsUnpublished(bundles: seq<Bundle>, s: State, k: nat, i: nat)
    requires PhasesAt(bundles, s, k) && i < |bundles| && s.phases[i].Failed?
    ensures (s.generation, i + 1) !in s.markers
  {
    assert PhaseAt(bundles[i], s, i, k);
  }

  lemma {:induction false} LogGrows(bundles: seq<Bundle>, s: State, actions: seq<Action>)
    requires |s.phases| == |bundles| && Runs(bundles, s, actions) && NoRestart(actions)
    ensures s.log <= After(bundles, s, actions).log && After(bundles, s, actions).generation == s.generation
    decreases |actions|
  {
    if actions != [] {
      assert actions[0] in actions;
      LogGrows(bundles, Step(bundles, s, actions[0]), actions[1..]);
    }
  }

  // ------------------------------------------------- failures, told by the actions

  lemma {:induction false} RunsAppend(bundles: seq<Bundle>, s: State, a: seq<Action>, b: seq<Action>)
    requires |s.phases| == |bundles|
    ensures Runs(bundles, s, a + b) <==> Runs(bundles, s, a) && Runs(bundles, After(bundles, s, a), b)
    ensures Runs(bundles, s, a + b) ==> After(bundles, s, a + b) == After(bundles, After(bundles, s, a), b)
    decreases |a|
  {
    hide Enabled, Step;
    if a == [] {
      assert a + b == b;
    } else {
      assert (a + b)[0] == a[0] && (a + b)[1..] == a[1..] + b;
      if Enabled(bundles, s, a[0]) {
        RunsAppend(bundles, Step(bundles, s, a[0]), a[1..], b);
      }
    }
  }

  /** How often bundle `i` has looked for its predecessor's marker since the last restart. */
  function PollsSince(actions: seq<Action>, i: nat): nat {
    if actions == [] then 0
    else
      var a := actions[|actions| - 1];
      if a.Restart? then 0
      else PollsSince(actions[..|actions| - 1], i) + (if a == Poll(i) then 1 else 0)
  }

  /**
   * Action `a`, coming after `before`, makes its script stop: a command that fails, a
   * marker that cannot be written, or the last of the looks for a marker that is not there.
   */
  ghost predicate Fails(bundles: seq<Bundle>, s0: State, before: seq<Action>, a: Action)
    requires |s0.phases| == |bundles| && Runs(bundles, s0, before)
  {
    match a
    case Command(_, ok) => !ok
    case Publish(_, ok) => !ok
    case Poll(i) =>
      && PollsSince(before, i) == WAIT_ATTEMPTS - 1
      && (After(bundles, s0, before).generation, i) !in After(bundles, s0, before).markers
    case _ => false
  }

  lemma LastStep(bundles: seq<Bundle>, s: State, actions: seq<Action>)
    requires |s.phases| == |bundles| && Runs(bundles, s, actions) && actions != []
    ensures (var (before, a) := (actions[..|actions| - 1], actions[|actions| - 1]);
             && Runs(bundles, s, before) && Enabled(bundles, After(bundles, s, before), a)
             && After(bundles, s, actions) == Step(bundles, After(bundles, s, before), a))
  {
    var (before, a) := (actions[..|actions| - 1], actions[|actions| - 1]);
    assert actions == before + [a];
    RunsAppend(bundles, s, before, [a]);
    assert [a][1..] == [];
  }

  /** A waiting bundle has looked as often as its phase says. */
  predicate CountsPolls(s: State, actions: seq<Action>, i: nat)
    requires i < |s.phases|
  {
    match s.phases[i]
    case NotStarted => PollsSince(actions, i) == 0
    case Waiting(polls) => PollsSince(actions, i) == polls < WAIT_ATTEMPTS
    case _ => true
  }

  lemma {:induction false} PollsAreCounted(bundles: seq<Bundle>, s0: State, actions: seq<Action>, i: nat)
    requires Initial(bundles, s0) && Runs(bundles, s0, actions) && i < |bundles|
    ensures CountsPolls(After(bundles, s0, actions), actions, i)
    decreases |actions|
  {
    if actions != [] {
      LastStep(bundles, s0, actions);
      PollsAreCounted(bundles, s0, actions[..|actions| - 1], i);
    }
  }

  /** Since its last restart the run has an action that stopped bundle `i`. */
  ghost predicate HasFailed(bundles: seq<Bundle>, s0: State, actions: seq<Action>, i: nat)
    requires |s0.phases| == |bundles|
  {
    exists n: nat :: n < |actions| && FailedAt(bundles, s0, actions, i, n)
  }

  ghost predicate FailedAt(bundles: seq<Bundle>, s0: State, actions: seq<Action>, i: nat, n: nat)
    requires |s0.phases| == |bundles| && n < |actions|
  {
    && !actions[n].Restart? && actions[n].i == i && NoRestart(actions[n..])
    && Runs(bundles, s0, actions[..n]) && Fails(bundles, s0, actions[..n], actions[n])
  }

  lemma StepFails(bundles: seq<Bundle>, s0: State, before: seq<Action>, a: Action, i: nat)
    requires Chained(bundles) && Initial(bundles, s0) && Runs(bundles, s0, before) && i < |bundles|
    requires Enabled(bundles, After(bundles, s0, before), a)
    ensures Step(bundles, After(bundles, s0, before), a).phases[i].Failed?
       <==> || (!a.Restart? && a.i == i && Fails(bundles, s0, before, a))
            || (!a.Restart? && After(bundles, s0, before).phases[i].Failed?)
  {
    PollsAreCounted(bundles, s0, before, i);
  }

  lemma FailedBefore(bundles: seq<Bundle>, s0: State, before: seq<Action>, a: Action, i: nat)
    requires |s0.phases| == |bundles| && Runs(bundles, s0, before)
    ensures HasFailed(bundles, s0, before + [a], i)
       <==> !a.Restart? && (HasFailed(bundles, s0, before, i) || (a.i == i && Fails(bundles, s0, before, a)))
  {
    hide Fails;
    var (actions, last) := (before + [a], |before|);
    assert actions[..last] == before && actions[last..] == [a];
    forall n: nat | n < last
      ensures actions[..n] == before[..n] && actions[n] == before[n]
      ensures NoRestart(actions[n..]) <==> NoRestart(before[n..]) && !a.Restart?
    {
      assert actions[n..] == before[n..] + [a];
    }
    assert FailedAt(bundles, s0, actions, i, last) <==> !a.Restart? && a.i == i && Fails(bundles, s0, before, a);
    forall n: nat | n < last
      ensures FailedAt(bundles, s0, actions, i, n) <==> FailedAt(bundles, s0, before, i, n) && !a.Restart?
    {
    }
    hide FailedAt;
    if n: nat :| n < |before| && FailedAt(bundles, s0, before, i, n) && !a.Restart? {
      assert FailedAt(bundles, s0, actions, i, n);
    }
  }

  /** A bundle has failed exactly when an action since the last restart stopped it. */
  lemma {:induction false} FailedIff(bundles: seq<Bundle>, s0: State, actions: seq<Action>, i: nat)
    requires Chained(bundles) && Initial(bundles, s0) && Runs(bundles, s0, actions) && i < |bundles|
    ensures After(bundles, s0, actions).phases[i].Failed? <==> HasFailed(bundles, s0, actions, i)
    decreases |actions|
  {
    if actions != [] {
      hide Step, Enabled, Fails, HasFailed;
      var (before, a) := (actions[..|actions| - 1], actions[|actions| - 1]);
      assert actions == before + [a];
      LastStep(bundles, s0, actions);
      FailedIff(bundles, s0, before, i);
      StepFails(bundles, s0, before, a, i);
      FailedBefore(bundles, s0, before, a, i);
    }
  }

  /** Where a step that stops bundle `a.i` leaves it, and what `UpToFailure` is then. */
  lemma FailingStep(bundles: seq<Bundle>, s: State, a: Action, k: nat)
    requires InvAt(bundles, s, k) && Enabled(bundles, s, a) && !a.Restart?
    requires Step(bundles, s, a).phases[a.i].Failed? && !s.phases[a.i].Failed?
    ensures (var s' := Step(bundles, s, a);
             var ran := s'.phases[a.i].ran;
             && InvAt(bundles, s', k) && s'.generation == s.generation
             && (a.Command? || a.Publish? ==> a.i == k && ran <= |bundles[k].chunk|
                                              && UpToFailure(bundles, k, ran) == s'.log)
             && (a.Command? ==> |s'.log| == |s.log| + 1)
             && (a.Publish? ==> s'.log == s.log)
             && (a.Poll? ==> ran == 0))
  {
    InvStep(bundles, s, a, k);
    PhasesStep(bundles, s, a, k);
    hide Flat;
  }

  lemma UpToFailureIsPrefix(bundles: seq<Bundle>, i: nat, ran: nat)
    requires i < |bundles| && ran <= |bundles[i].chunk|
    ensures UpToFailure(bundles, i, ran) <= Flat(bundles)
    ensures UpToFailure(bundles, i, 0) == Flat(bundles[..i])
  {
    FlatPrefix(bundles, i + 1, |bundles|);
    assert bundles[..|bundles|] == bundles && bundles[..i + 1][..i] == bundles[..i];
  }

  /**
   * Once an action has made its script stop, nothing beyond that point of the list ever
   * runs in the generation, and the bundle never publishes: after a failed command the
   * log ends with it, after a failed publication it does not grow, and after a wait that
   * ran out it stays before the bundle.
   */
  lemma FailStop(bundles: seq<Bundle>, s0: State, before: seq<Action>, a: Action, actions: seq<Action>)
    requires Chained(bundles) && Initial(bundles, s0) && FreshGeneration(s0.generation, s0.markers)
    requires Runs(bundles, s0, before + [a] + actions) && NoRestart(actions)
    ensures Runs(bundles, s0, before)
    ensures (var (s, after) := (After(bundles, s0, before), After(bundles, s0, before + [a] + actions));
             Fails(bundles, s0, before, a) ==>
               && a.i < |bundles| && (s.generation, a.i + 1) !in after.markers && after.generation == s.generation
               && (a.Command? ==> |s.log| < |Flat(bundles)| && after.log == Flat(bundles)[..|s.log| + 1])
               && (a.Publish? ==> after.log == s.log)
               && (a.Poll? ==> after.log <= Flat(bundles[..a.i])))
  {
    hide InvAt, Flat, Step, Enabled, Fails, UpToFailure, Chained, FreshGeneration;
    RunsAppend(bundles, s0, before + [a], actions);
    LastStep(bundles, s0, before + [a]);
    assert (before + [a])[..|before|] == before;
    if Fails(bundles, s0, before, a) {
      var s := After(bundles, s0, before);
      InvInitial(bundles, s0);
      var k := InvAfter(bundles, s0, before, 0);
      FailureHolds(bundles, s0, before, a, actions, k);
    }
  }

  lemma FailureHolds(
      bundles: seq<Bundle>, s0: State, before: seq<Action>, a: Action, actions: seq<Action>, k: nat)
    requires Chained(bundles) && Initial(bundles, s0) && Runs(bundles, s0, before) && Fails(bundles, s0, before, a)
    requires (var s := After(bundles, s0, before);
              && InvAt(bundles, s, k) && Enabled(bundles, s, a)
              && Runs(bundles, Step(bundles, s, a), actions) && NoRestart(actions))
    ensures (var s := After(bundles, s0, before);
             var after := After(bundles, Step(bundles, s, a), actions);
             && !a.Restart? && a.i < |bundles|
             && (s.generation, a.i + 1) !in after.markers && after.generation == s.generation
             && (a.Command? ==> |s.log| < |Flat(bundles)| && after.log == Flat(bundles)[..|s.log| + 1])
             && (a.Publish? ==> after.log == s.log)
             && (a.Poll? ==> after.log <= Flat(bundles[..a.i])))
  {
    hide InvAt, Flat, Step, Enabled, Fails, UpToFailure, Runs, After, Chained;
    var s := After(bundles, s0, before);
    FailingStops(bundles, s0, before, a);
    FailingStep(bundles, s, a, k);
    var s' := Step(bundles, s, a);
    FailedPhaseBounds(bundles, s', actions, k, a.i);
    LogGrows(bundles, s', actions);
    UpToFailureIsPrefix(bundles, a.i, s'.phases[a.i].ran);
  }

  lemma FailingStops(bundles: seq<Bundle>, s0: State, before: seq<Action>, a: Action)
    requires Chained(bundles) && Initial(bundles, s0) && Runs(bundles, s0, before) && Fails(bundles, s0, before, a)
    requires Enabled(bundles, After(bundles, s0, before), a)
    ensures !a.Restart? && a.i < |bundles|
    ensures (var s := After(bundles, s0, before);
             Step(bundles, s, a).phases[a.i].Failed? && !s.phases[a.i].Failed?)
  {
    assert !a.Restart?;
    hide Runs, After, Fails, Step, Chained;
    EnabledIsLive(bundles, After(bundles, s0, before), a);
    StepFails(bundles, s0, before, a, a.i);
  }

  lemma EnabledIsLive(bundles: seq<Bundle>, s: State, a: Action)
    requires |s.phases| == |bundles| && Enabled(bundles, s, a)
    ensures !a.Restart? ==> a.i < |bundles| && !s.phases[a.i].Failed?
  {
  }

  /** Nothing can happen any more short of a restart. */
  ghost predicate Quiescent(bundles: seq<Bundle>, s: State)
    requires |s.phases| == |bundles|
  {
    forall a {:trigger Enabled(bundles, s, a)} :: Enabled(bundles, s, a) ==> a.Restart?
  }

  /** No deadlock: short of a failure the first unfinished bundle can always move. */
  lemma FirstUnfinishedCanMove(bundles: seq<Bundle>, s: State, k: nat) returns (a: Action)
    requires InvAt(bundles, s, k) && k < |bundles| && !s.phases[k].Failed?
    ensures Enabled(bundles, s, a) && !a.Restart?
  {
    match s.phases[k]
    case NotStarted => a := Start(k);
    case Waiting(_) => a := Poll(k);
    case Running(pc) => a := if pc < |bundles[k].chunk| then Command(k, true) else Publish(k, true);
  }

  /**
   * A run that can go no further without a restart ran the whole list, if since the last
   * restart no command and no publication failed and no wait ran out.
   */
  lemma CompleteWhenQuiescent(bundles: seq<Bundle>, s0: State, actions: seq<Action>)
    requires Chained(bundles) && Initial(bundles, s0) && FreshGeneration(s0.generation, s0.markers)
    requires Runs(bundles, s0, actions) && Quiescent(bundles, After(bundles, s0, actions))
    requires forall i: nat | i < |bundles| :: !HasFailed(bundles, s0, actions, i)
    ensures After(bundles, s0, actions).log == Flat(bundles)
  {
    var s := After(bundles, s0, actions);
    InvInitial(bundles, s0);
    var k := InvAfter(bundles, s0, actions, 0);
    if k < |bundles| {
      FailedIff(bundles, s0, actions, k);
      hide HasFailed, InvAt;
      var a := FirstUnfinishedCanMove(bundles, s, k);
    }
    assert bundles[..k] == bundles;
  }

  // ------------------------------------------------------- markers outlive restarts

  /** The generation in which an action of the run happens. */
  function GenerationAt(first: nat, actions: seq<Action>): nat {
    if actions == [] then first
    else if actions[|actions| - 1].Restart? then actions[|actions| - 1].generation
    else GenerationAt(first, actions[..|actions| - 1])
  }

  ghost predicate Published(actions: seq<Action>, first: nat, n: nat, generation: nat, number: nat) {
    n < |actions| && actions[n].Publish? && actions[n].ok && actions[n].i + 1 == number
    && GenerationAt(first, actions[..n]) == generation
  }

  /** The markers after a run are the old ones and those published in it, of whatever generation. */
  lemma {:induction false} MarkersStay(bundles: seq<Bundle>, s0: State, actions: seq<Action>, g: nat, number: nat)
    requires Chained(bundles) && |s0.phases| == |bundles| && Runs(bundles, s0, actions)
    ensures After(bundles, s0, actions).generation == GenerationAt(s0.generation, actions)
    ensures (g, number) in After(bundles, s0, actions).markers
       <==> (g, number) in s0.markers || exists n: nat :: Published(actions, s0.generation, n, g, number)
    decreases |actions|
  {
    if actions != [] {
      var (before, a) := (actions[..|actions| - 1], actions[|actions| - 1]);
      LastStep(bundles, s0, actions);
      MarkersStay(bundles, s0, before, g, number);
      MarkerStep(bundles, After(bundles, s0, before), a, g, number);
      hide Step, Enabled, Published;
      PublishedMore(before, a, s0.generation, g, number);
      assert actions == before + [a];
    }
  }

  lemma MarkerStep(bundles: seq<Bundle>, s: State, a: Action, g: nat, number: nat)
    requires Chained(bundles) && |s.phases| == |bundles| && Enabled(bundles, s, a)
    ensures (var s' := Step(bundles, s, a);
             && s'.generation == (if a.Restart? then a.generation else s.generation)
             && ((g, number) in s'.markers <==>
                   || (g, number) in s.markers
                   || (a.Publish? && a.ok && a.i + 1 == number && s.generation == g)))
  {
  }

  lemma PublishedMore(before: seq<Action>, a: Action, first: nat, g: nat, number: nat)
    ensures (exists n: nat :: Published(before + [a], first, n, g, number))
       <==> || (exists n: nat :: Published(before, first, n, g, number))
            || (a.Publish? && a.ok && a.i + 1 == number && GenerationAt(first, before) == g)
  {
    var actions := before + [a];
    hide GenerationAt;
    forall n: nat | n < |before|
      ensures Published(actions, first, n, g, number) <==> Published(before, first, n, g, number)
    {
      assert actions[..n] == before[..n];
    }
    assert actions[..|before|] == before;
    if n: nat :| Published(before, first, n, g, number) {
      assert Published(actions, first, n, g, number);
    }
    if a.Publish? && a.ok && a.i + 1 == number && GenerationAt(first, before) == g {
      assert Published(actions, first, |before|, g, number);
    }
  }

  // --------------------------------------------------------------- blank commands

  /** The white space of the first two pages, and that of the others, by number. */
  lemma SpacesAre(c: char)
    ensures (c as int < 256 ==> (IsSpace(c) <==> c as int in {9, 10, 11, 12, 13, 28, 29, 30, 31, 32, 0x85, 0xA0}))
    ensures (c as int >= 256 ==>
               (IsSpace(c) <==> c as int in {0x1680, 0x2000, 0x2001, 0x2002, 0x2003, 0x2004, 0x2005, 0x2006, 0x2007,
                                             0x2008, 0x2009, 0x200A, 0x2028, 0x2029, 0x202F, 0x205F, 0x3000}))
  {
  }

  /** The commands kept are those with some other character, in their order. */
  lemma {:induction false} NonBlankAppend(a: seq<string>, b: seq<string>)
    ensures NonBlank(a + b) == NonBlank(a) + NonBlank(b)
  {
    if a == [] {
      assert a + b == b;
    } else {
      assert (a + b)[1..] == a[1..] + b;
      NonBlankAppend(a[1..], b);
    }
  }

  lemma NonBlankOne(cmd: string)
    ensures NonBlank([cmd]) == if exists c :: c in cmd && !IsSpace(c) then [cmd] else []
  {
    hide IsSpace;
  }
}
