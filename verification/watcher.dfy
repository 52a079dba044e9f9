/** The event loop that binds the fanotify event source to the debounce registry, and
    the whole watcher as a state machine over a trace of inputs: notifications from the
    event source, and timers coming due. */
module Watcher {
  import opened Wrappers
  import Paths
  import Classifier
  import Debounce

  // ---------------------------------------------------------------------------
  // Configuration and the quiescence duration
  // ---------------------------------------------------------------------------

  const TwoTo63: int := 0x8000_0000_0000_0000

  /** Go's int and int64 on a 64-bit platform. */
  type Int64 = x: int | -TwoTo63 <= x < TwoTo63

  /** Two's-complement wrap-around of an int64 result. */
  function Wrap64(x: int): (r: Int64)
    ensures (r - x) % (2 * TwoTo63) == 0
    ensures -TwoTo63 <= x < TwoTo63 ==> r == x
  {
    (x + TwoTo63) % (2 * TwoTo63) - TwoTo63
  }

  const NanosPerSecond: int := 1_000_000_000

  /** The largest wait, in seconds, whose duration fits in a time.Duration. */
  const MaxWaitSeconds: int := 9_223_372_036

  /** The path test the event loop puts in front of the registry: the character prefix
      test on the path text, as main.go applies it, or the corrected test that also demands
      containment element by element. */
  datatype Filter = CharPrefix | Contained

  /** The source and destination roots, the -wait flag in seconds, and the loop's filter. */
  datatype Config = Config(source: seq<string>, destination: seq<string>, waitTime: Int64, filter: Filter)

  /** waitFor = time.Duration(waitTime) * time.Second, in nanoseconds. */
  function WaitFor(waitTime: Int64): (d: Int64)
    ensures 0 <= waitTime <= MaxWaitSeconds ==> d == waitTime * NanosPerSecond && d >= 0
  {
    Wrap64(waitTime * NanosPerSecond)
  }

  /** One second past the limit, the multiplication wraps to a negative duration, so every
      timer would fire as soon as it is armed. */
  lemma WaitForWrapsPastLimit()
    ensures WaitFor(MaxWaitSeconds + 1) < 0
  {
  }

  // ---------------------------------------------------------------------------
  // Notifications and the filter in front of the registry
  // ---------------------------------------------------------------------------

  /** Event mask bits from the Linux fanotify interface. */
  const FAN_MODIFY: bv64 := 0x2
  const FAN_CLOSE_WRITE: bv64 := 0x8

  /** A notification: the path the kernel resolved (None when resolution failed) and its mask. */
  datatype Notification = Notification(path: Option<seq<string>>, mask: bv64)

  /** What one read of the event source yields. */
  datatype Read = ReadFailed | NoData | Received(n: Notification)

  /** MatchMask: every bit asked for is set. */
  predicate MatchMask(mask: bv64, bits: bv64) {
    mask & bits == bits
  }

  /** Content was modified or a file opened for writing was closed: exactly the masks with
      one of the two write-related bits set qualify. */
  function Qualifies(mask: bv64): (b: bool)
    ensures b <==> mask & (FAN_CLOSE_WRITE | FAN_MODIFY) != 0
  {
    MatchMask(mask, FAN_CLOSE_WRITE) || MatchMask(mask, FAN_MODIFY)
  }

  /** The filter of the event loop as written: a character prefix test on the path text.
      Every path inside the root passes it; the converse fails for sibling directories. */
  function PrefixFilter(root: seq<string>, path: seq<string>): (b: bool)
    ensures Paths.Within(path, root) ==> b
  {
    Paths.WithinHasPrefix(path, root);
    Paths.HasPrefix(Paths.Render(path), Paths.Render(root))
  }

  /** The filter the loop is evidently meant to apply: the prefix test, plus containment
      element by element. The prefix test adds nothing beyond containment. */
  function Admits(root: seq<string>, path: seq<string>): (b: bool)
    ensures b ==> PrefixFilter(root, path)
    ensures b <==> Paths.Within(path, root)
  {
    PrefixFilter(root, path) && Paths.Within(path, root)
  }

  /** The configured filter. Either one lets every path inside the root through; the
      corrected one lets nothing else through. */
  function Passes(filter: Filter, root: seq<string>, path: seq<string>): (b: bool)
    ensures Paths.Within(path, root) ==> b
    ensures filter.Contained? ==> (b <==> Paths.Within(path, root))
  {
    match filter
    case CharPrefix => PrefixFilter(root, path)
    case Contained => Admits(root, path)
  }

  /** A path next to the source root whose name merely begins with the root's last name
      passes the prefix test. It is classified as "..", and the callback for it would move
      the parent of the source root to the parent of the destination root. */
  lemma SiblingDirectoryPassesPrefixFilter()
    ensures var src := ["data", "in"];
      var dst := ["mnt", "out"];
      var path := ["data", "in2", "f.txt"];
      && PrefixFilter(src, path)
      && !Admits(src, path)
      && Classifier.WatchComponent(path, src) == ".."
      && Paths.Join(src, "..") == ["data"]
      && Paths.Join(dst, "..") == ["mnt"]
  {
    SiblingPassesPrefix();
    SiblingKeyIsParent();
    Paths.JoinParent(["data", "in"]);
    Paths.JoinParent(["mnt", "out"]);
    assert ["data", "in"][..1] == ["data"];
    assert ["mnt", "out"][..1] == ["mnt"];
  }

  /** "/data/in2/f.txt" begins with "/data/in", though the path is not below /data/in. */
  lemma SiblingPassesPrefix()
    ensures PrefixFilter(["data", "in"], ["data", "in2", "f.txt"])
    ensures !Paths.Within(["data", "in2", "f.txt"], ["data", "in"])
  {
    var src := ["data", "in"];
    var path := ["data", "in2", "f.txt"];
    assert Paths.Render(path) == "/data/in2/f.txt";
    assert Paths.Render(src) == "/data/in";
    assert Paths.Render(path)[..|Paths.Render(src)|] == "/data/in";
    assert path[..2] != src by {
      assert path[..2][1] == "in2";
    }
  }

  /** The sibling path's directory is "../in2" relative to the root, so its key is "..". */
  lemma SiblingKeyIsParent()
    ensures Classifier.WatchComponent(["data", "in2", "f.txt"], ["data", "in"]) == ".."
  {
    var src := ["data", "in"];
    var path := ["data", "in2", "f.txt"];
    var dir := ["data", "in2"];
    assert Paths.Split(path).0 == dir;
    assert Paths.CommonLen(src, dir) == 1 by {
      assert src[1..] == ["in"] && dir[1..] == ["in2"];
      assert Paths.CommonLen(src[1..], dir[1..]) == 0;
    }
    assert Paths.Rel(src, dir) == ["..", "in2"];
    assert Paths.RelText(src, dir) == ".." + "/" + "in2";
    Paths.SplitAtSlash("..", "in2");
  }

  /** With the corrected filter, the key of an admitted path names a top-level entry, and
      its move stays one level below each root. */
  lemma {:induction false} AdmittedKeyStaysInside(cfg: Config, path: seq<string>)
    requires Paths.IsClean(path) && Admits(cfg.source, path)
    ensures var key := Classifier.WatchComponent(path, cfg.source);
      && Paths.IsName(key)
      && key == path[|cfg.source|]
      && Paths.Join(cfg.source, key) == cfg.source + [key]
      && Paths.Join(cfg.destination, key) == cfg.destination + [key]
  {
    var key := Classifier.WatchComponent(path, cfg.source);
    Classifier.KeyIsTopLevelEntry(path, cfg.source);
    Paths.JoinName(cfg.source, key);
    Paths.JoinName(cfg.destination, key);
  }

  /** The watch key a notification arms, if it gets past the filter. */
  function QualifyingKey(cfg: Config, n: Notification): (k: Option<string>)
    ensures k.Some? <==> n.path.Some? && Passes(cfg.filter, cfg.source, n.path.value) && Qualifies(n.mask)
  {
    match n.path
    case None => None
    case Some(p) =>
      if !Passes(cfg.filter, cfg.source, p) then None
      else if !Qualifies(n.mask) then None
      else Some(Classifier.WatchComponent(p, cfg.source))
  }

  /** The key a notification from inside the root arms is the path's top-level entry. */
  lemma {:induction false} QualifyingKeyIsEntry(cfg: Config, n: Notification)
    requires QualifyingKey(cfg, n).Some?
    requires Paths.IsClean(n.path.value) && Paths.Within(n.path.value, cfg.source)
    ensures QualifyingKey(cfg, n).value == n.path.value[|cfg.source|]
  {
    Classifier.KeyIsTopLevelEntry(n.path.value, cfg.source);
  }

  /** The outcome of handling one read: carry on with a registry, or stop the process. */
  datatype Outcome = Continue(reg: Debounce.Registry) | Fatal

  /** One pass of the event loop: a failed read or an unresolvable path is fatal; an empty
      read, a path the filter rejects or a mask without a write bit is dropped; any other
      notification arms or resets its key's timer. */
  function Handle(cfg: Config, reg: Debounce.Registry, read: Read, now: int): (o: Outcome)
    ensures o.Fatal? <==> read.ReadFailed? || (read.Received? && read.n.path.None?)
    ensures o.Continue? && (read.NoData? || QualifyingKey(cfg, read.n).None?) ==> o.reg == reg
  {
    match read
    case ReadFailed => Fatal
    case NoData => Continue(reg)
    case Received(n) =>
      if n.path.None? then Fatal
      else match QualifyingKey(cfg, n)
        case None => Continue(reg)
        case Some(key) => Continue(Debounce.Event(reg, key, now, WaitFor(cfg.waitTime)))
  }

  /** A notification whose path text does not begin with the source root's text leaves the
      timers as they were. */
  lemma DropsPathWithoutPrefix(cfg: Config, reg: Debounce.Registry, n: Notification, now: int)
    requires n.path.Some? && !PrefixFilter(cfg.source, n.path.value)
    ensures Handle(cfg, reg, Received(n), now) == Continue(reg)
  {
  }

  /** A notification whose mask has neither FAN_CLOSE_WRITE nor FAN_MODIFY leaves the
      timers as they were. */
  lemma DropsOtherKinds(cfg: Config, reg: Debounce.Registry, n: Notification, now: int)
    requires n.path.Some? && n.mask & (FAN_CLOSE_WRITE | FAN_MODIFY) == 0
    ensures Handle(cfg, reg, Received(n), now) == Continue(reg)
  {
  }

  /** A qualifying notification for key k at time t leaves k with one timer, due exactly at
      t + waitFor, and every other key's entry as it was. */
  lemma ArmsQualifyingKey(cfg: Config, reg: Debounce.Registry, n: Notification, now: int)
    requires QualifyingKey(cfg, n).Some?
    ensures var key := QualifyingKey(cfg, n).value;
      var o := Handle(cfg, reg, Received(n), now);
      && o.Continue?
      && key in o.reg.timers
      && o.reg.timers[key].Armed?
      && o.reg.timers[key].deadline == now + WaitFor(cfg.waitTime)
      && o.reg.timers.Keys == reg.timers.Keys + {key}
      && (forall k :: k in reg.timers && k != key ==> o.reg.timers[k] == reg.timers[k])
  {
  }

  // ---------------------------------------------------------------------------
  // The watcher over a trace
  // ---------------------------------------------------------------------------

  /** An input to the watcher: a read of the event source at `now`, or the moment `now`
      offered to the timer of `key`. */
  datatype Input = Deliver(read: Read, now: int) | Due(key: string, now: int)

  /** The timers, the moves asked for so far, and whether the process has stopped. */
  datatype Engine = Engine(reg: Debounce.Registry, moves: seq<Debounce.Move>, halted: bool)

  const Start: Engine := Engine(Debounce.Empty, [], false)

  /** One input. A stopped process stays stopped; a timer not yet due does nothing. */
  function Next(cfg: Config, e: Engine, input: Input): (e': Engine)
    ensures e.halted ==> e' == e
    ensures |e'.moves| == |e.moves| || |e'.moves| == |e.moves| + 1
    ensures e'.moves[..|e.moves|] == e.moves
    ensures input.Deliver? ==> e'.moves == e.moves
  {
    if e.halted then e
    else match input
      case Deliver(read, now) =>
        (match Handle(cfg, e.reg, read, now)
         case Fatal => e.(halted := true)
         case Continue(reg) => e.(reg := reg))
      case Due(key, now) =>
        (match Debounce.Expire(e.reg, key, now, cfg.source, cfg.destination)
         case None => e
         case Some(f) => Engine(f.next, e.moves + [f.move], false))
  }

  /** The number of timer deliveries in a trace. */
  function DueCount(inputs: seq<Input>): nat {
    if inputs == [] then 0
    else DueCount(inputs[..|inputs| - 1]) + if inputs[|inputs| - 1].Due? then 1 else 0
  }

  /** The watcher after a whole trace, from no timers. Only a timer going off moves
      anything, so there are never more moves than timer deliveries. */
  function Run(cfg: Config, inputs: seq<Input>): (e: Engine)
    ensures |e.moves| <= DueCount(inputs)
  {
    if inputs == [] then Start
    else Next(cfg, Run(cfg, inputs[..|inputs| - 1]), inputs[|inputs| - 1])
  }

  lemma RunSnoc(cfg: Config, inputs: seq<Input>, input: Input)
    ensures Run(cfg, inputs + [input]) == Next(cfg, Run(cfg, inputs), input)
  {
    assert (inputs + [input])[..|inputs|] == inputs;
  }

  /** A trace extended by a non-empty run is the trace extended by all but the last input,
      then by the last. */
  lemma SnocSplit(pre: seq<Input>, quiet: seq<Input>)
    requires quiet != []
    ensures pre + quiet == (pre + quiet[..|quiet| - 1]) + [quiet[|quiet| - 1]]
  {
    assert quiet == quiet[..|quiet| - 1] + [quiet[|quiet| - 1]];
  }

  /** The key a trace element arms, if it is a qualifying notification. */
  function ArmedKey(cfg: Config, input: Input): Option<string> {
    match input
    case Deliver(Received(n), _) => QualifyingKey(cfg, n)
    case _ => None
  }

  /** The time of the last qualifying notification for `key` in the trace. */
  function LastEvent(cfg: Config, inputs: seq<Input>, key: string): Option<int> {
    if inputs == [] then None
    else if ArmedKey(cfg, inputs[|inputs| - 1]) == Some(key) then Some(inputs[|inputs| - 1].now)
    else LastEvent(cfg, inputs[..|inputs| - 1], key)
  }

  /** Every resolved path in the trace is clean, as the kernel reports it. */
  predicate CleanPaths(inputs: seq<Input>) {
    forall i :: 0 <= i < |inputs| ==> CleanInput(inputs[i])
  }

  predicate CleanInput(input: Input) {
    input.Deliver? && input.read.Received? && input.read.n.path.Some? ==> Paths.IsClean(input.read.n.path.value)
  }

  /** Every resolved path that gets past the configured filter lies inside the source root.
      The character prefix test alone does not ensure this: a sibling directory whose name
      begins with the root's last name gets through it. */
  predicate ConfinedPaths(cfg: Config, inputs: seq<Input>) {
    forall i :: 0 <= i < |inputs| ==> ConfinedInput(cfg, inputs[i])
  }

  predicate ConfinedInput(cfg: Config, input: Input) {
    input.Deliver? && input.read.Received? && input.read.n.path.Some?
      && Passes(cfg.filter, cfg.source, input.read.n.path.value)
    ==> Paths.Within(input.read.n.path.value, cfg.source)
  }

  /** With the corrected filter every trace is confined. */
  lemma CorrectedFilterConfines(cfg: Config, inputs: seq<Input>)
    requires cfg.filter.Contained?
    ensures ConfinedPaths(cfg, inputs)
  {
  }

  /** A move of one top-level entry from directly below the source root to the same name
      directly below the destination root. */
  predicate MovesEntry(cfg: Config, m: Debounce.Move) {
    && |m.src| == |cfg.source| + 1
    && m.src[..|cfg.source|] == cfg.source
    && Paths.IsName(m.src[|cfg.source|])
    && m.dst == cfg.destination + [m.src[|cfg.source|]]
  }

  /** Each key's deadline is waitFor after that key's last qualifying notification. */
  ghost predicate DeadlinesMatch(cfg: Config, inputs: seq<Input>, reg: Debounce.Registry) {
    forall k :: k in reg.timers ==>
      LastEvent(cfg, inputs, k).Some?
      && reg.timers[k].Armed?
      && reg.timers[k].deadline == LastEvent(cfg, inputs, k).value + WaitFor(cfg.waitTime)
  }

  /** On clean paths: every key is a name and every move relocates one top-level entry. */
  ghost predicate StaysInside(cfg: Config, e: Engine) {
    && (forall k :: k in e.reg.timers ==> Paths.IsName(k))
    && (forall i :: 0 <= i < |e.moves| ==> MovesEntry(cfg, e.moves[i]))
  }

  lemma {:induction false} NextKeepsDeadlines(cfg: Config, prev: seq<Input>, e: Engine, input: Input)
    requires !e.halted && Debounce.Valid(e.reg) && DeadlinesMatch(cfg, prev, e.reg)
    ensures Debounce.Valid(Next(cfg, e, input).reg)
    ensures DeadlinesMatch(cfg, prev + [input], Next(cfg, e, input).reg)
  {
    var all := prev + [input];
    assert all[..|prev|] == prev && all[|prev|] == input;
    var e' := Next(cfg, e, input);
    forall k | k in e'.reg.timers
      ensures LastEvent(cfg, all, k).Some? && e'.reg.timers[k].Armed?
      ensures e'.reg.timers[k].deadline == LastEvent(cfg, all, k).value + WaitFor(cfg.waitTime)
    {
      if ArmedKey(cfg, input) != Some(k) {
        assert LastEvent(cfg, all, k) == LastEvent(cfg, prev, k);
        assert k in e.reg.timers && e'.reg.timers[k] == e.reg.timers[k];
      }
    }
  }

  lemma {:induction false} NextStaysInside(cfg: Config, e: Engine, input: Input)
    requires !e.halted && CleanInput(input) && ConfinedInput(cfg, input) && StaysInside(cfg, e)
    ensures StaysInside(cfg, Next(cfg, e, input))
  {
    match input
    case Deliver(read, now) =>
      if read.Received? && QualifyingKey(cfg, read.n).Some? {
        AdmittedKeyStaysInside(cfg, read.n.path.value);
      }
    case Due(key, now) =>
      if Debounce.Expire(e.reg, key, now, cfg.source, cfg.destination).Some? {
        Debounce.ExpireMovesEntry(e.reg, key, now, cfg.source, cfg.destination);
        var m := Debounce.Move(cfg.source + [key], cfg.destination + [key]);
        assert m.src[..|cfg.source|] == cfg.source;
        assert MovesEntry(cfg, m);
      }
  }

  /** Every reachable state of a running watcher has a well-formed registry whose deadlines
      are waitFor after each key's last qualifying notification. */
  lemma {:induction false} RunDeadlines(cfg: Config, inputs: seq<Input>)
    requires !Run(cfg, inputs).halted
    ensures Debounce.Valid(Run(cfg, inputs).reg)
    ensures DeadlinesMatch(cfg, inputs, Run(cfg, inputs).reg)
  {
    if inputs != [] {
      var prev := inputs[..|inputs| - 1];
      var last := inputs[|inputs| - 1];
      var e := Run(cfg, prev);
      assert Run(cfg, inputs) == Next(cfg, e, last);
      RunDeadlines(cfg, prev);
      NextKeepsDeadlines(cfg, prev, e, last);
      assert prev + [last] == inputs;
    }
  }

  /** On clean paths that the filter confines to the source root, every reachable state
      keys its timers by names, and every move it has asked for relocates one top-level
      entry between the roots. */
  lemma {:induction false} RunStaysInside(cfg: Config, inputs: seq<Input>)
    requires !Run(cfg, inputs).halted && CleanPaths(inputs) && ConfinedPaths(cfg, inputs)
    ensures StaysInside(cfg, Run(cfg, inputs))
  {
    if inputs != [] {
      var prev := inputs[..|inputs| - 1];
      assert CleanPaths(prev) && ConfinedPaths(cfg, prev) by {
        forall i | 0 <= i < |prev| ensures CleanInput(prev[i]) && ConfinedInput(cfg, prev[i]) {
          assert prev[i] == inputs[i];
        }
      }
      assert CleanInput(inputs[|inputs| - 1]) && ConfinedInput(cfg, inputs[|inputs| - 1]);
      RunStaysInside(cfg, prev);
      NextStaysInside(cfg, Run(cfg, prev), inputs[|inputs| - 1]);
    }
  }

  /** No premature fire: a key is moved only once waitFor has passed since its last
      qualifying notification. */
  lemma {:induction false} NoPrematureMove(cfg: Config, inputs: seq<Input>, key: string, now: int)
    requires !Run(cfg, inputs).halted
    requires |Run(cfg, inputs + [Due(key, now)]).moves| > |Run(cfg, inputs).moves|
    ensures LastEvent(cfg, inputs, key).Some?
    ensures now >= LastEvent(cfg, inputs, key).value + WaitFor(cfg.waitTime)
  {
    assert (inputs + [Due(key, now)])[..|inputs|] == inputs;
    RunDeadlines(cfg, inputs);
  }

  /** On every trace, under either filter, a key whose deadline has come fires when its
      timer is offered the moment: exactly one move is added, from join(source, key) to
      join(destination, key), and the key's entry is gone afterwards. */
  lemma {:induction false} DueKeyFires(cfg: Config, inputs: seq<Input>, key: string, now: int)
    requires !Run(cfg, inputs).halted
    requires key in Run(cfg, inputs).reg.timers && LastEvent(cfg, inputs, key).Some?
    requires now >= LastEvent(cfg, inputs, key).value + WaitFor(cfg.waitTime)
    ensures var e := Run(cfg, inputs);
      var e' := Run(cfg, inputs + [Due(key, now)]);
      && !e'.halted
      && e'.moves == e.moves + [Debounce.Move(Paths.Join(cfg.source, key), Paths.Join(cfg.destination, key))]
      && e'.reg.timers == e.reg.timers - {key}
  {
    var e := Run(cfg, inputs);
    RunSnoc(cfg, inputs, Due(key, now));
    RunDeadlines(cfg, inputs);
    assert Debounce.Expire(e.reg, key, now, cfg.source, cfg.destination).Some?;
  }

  /** On a clean trace that the filter confines to the source root, a key whose deadline
      has come is moved when its timer is offered the moment, and its entry is gone
      afterwards, so a later notification for it starts a fresh timer. */
  lemma {:induction false} MovesWhenDue(cfg: Config, inputs: seq<Input>, key: string, now: int)
    requires !Run(cfg, inputs).halted && CleanPaths(inputs) && ConfinedPaths(cfg, inputs)
    requires key in Run(cfg, inputs).reg.timers && LastEvent(cfg, inputs, key).Some?
    requires now >= LastEvent(cfg, inputs, key).value + WaitFor(cfg.waitTime)
    ensures var e := Run(cfg, inputs);
      var e' := Run(cfg, inputs + [Due(key, now)]);
      && e'.moves == e.moves + [Debounce.Move(cfg.source + [key], cfg.destination + [key])]
      && e'.reg.timers == e.reg.timers - {key}
  {
    DueKeyFires(cfg, inputs, key, now);
    RunStaysInside(cfg, inputs);
    Paths.JoinName(cfg.source, key);
    Paths.JoinName(cfg.destination, key);
  }

  /** A step that does not arm `key` leaves an absent key absent. */
  lemma StepKeepsAbsent(cfg: Config, e: Engine, input: Input, key: string)
    requires key !in e.reg.timers && ArmedKey(cfg, input) != Some(key)
    ensures key !in Next(cfg, e, input).reg.timers
  {
  }

  /** A run of inputs none of which arms `key` (it has no last qualifying notification for
      the key) leaves an absent key absent. */
  lemma {:induction false} RunKeepsAbsent(cfg: Config, pre: seq<Input>, quiet: seq<Input>, key: string)
    requires key !in Run(cfg, pre).reg.timers
    requires LastEvent(cfg, quiet, key).None?
    ensures key !in Run(cfg, pre + quiet).reg.timers
    decreases |quiet|
  {
    if quiet == [] {
      assert pre + quiet == pre;
    } else {
      var front := quiet[..|quiet| - 1];
      var last := quiet[|quiet| - 1];
      RunKeepsAbsent(cfg, pre, front, key);
      SnocSplit(pre, quiet);
      RunSnoc(cfg, pre + front, last);
      StepKeepsAbsent(cfg, Run(cfg, pre + front), last, key);
    }
  }

  /** Once per quiet period: after a key's timer has moved it, no later delivery to that
      key moves anything until a qualifying notification arms the key again. */
  lemma {:induction false} MovesOncePerQuietPeriod(cfg: Config, inputs: seq<Input>, key: string, t: int, quiet: seq<Input>, later: int)
    requires |Run(cfg, inputs + [Due(key, t)]).moves| > |Run(cfg, inputs).moves|
    requires LastEvent(cfg, quiet, key).None?
    ensures var pre := inputs + [Due(key, t)] + quiet;
      Run(cfg, pre + [Due(key, later)]).moves == Run(cfg, pre).moves
  {
    var fired := inputs + [Due(key, t)];
    RunSnoc(cfg, inputs, Due(key, t));
    assert key !in Run(cfg, fired).reg.timers;
    RunKeepsAbsent(cfg, fired, quiet, key);
    RunSnoc(cfg, fired + quiet, Due(key, later));
  }

  /** Inputs arrive in clock order. */
  predicate Monotone(inputs: seq<Input>) {
    forall i, j :: 0 <= i < j < |inputs| ==> inputs[i].now <= inputs[j].now
  }

  lemma {:induction false} LastEventNotAfter(cfg: Config, inputs: seq<Input>, key: string, bound: int)
    requires forall i :: 0 <= i < |inputs| ==> inputs[i].now <= bound
    ensures LastEvent(cfg, inputs, key).Some? ==> LastEvent(cfg, inputs, key).value <= bound
  {
    if inputs != [] {
      var prev := inputs[..|inputs| - 1];
      assert forall i :: 0 <= i < |prev| ==> prev[i] == inputs[i];
      LastEventNotAfter(cfg, prev, key, bound);
    }
  }

  /** On a clock that does not run backwards, a reset keeps the key's timer object and only
      ever moves its deadline later. */
  lemma {:induction false} ResetOnlyExtends(cfg: Config, inputs: seq<Input>, n: Notification, now: int)
    requires !Run(cfg, inputs).halted
    requires Monotone(inputs + [Deliver(Received(n), now)])
    requires QualifyingKey(cfg, n).Some? && QualifyingKey(cfg, n).value in Run(cfg, inputs).reg.timers
    ensures var key := QualifyingKey(cfg, n).value;
      var after := Run(cfg, inputs + [Deliver(Received(n), now)]).reg.timers;
      var old_t := Run(cfg, inputs).reg.timers[key];
      && key in after && old_t.Armed? && after[key].Armed?
      && after[key].id == old_t.id && after[key].deadline >= old_t.deadline
  {
    var all := inputs + [Deliver(Received(n), now)];
    assert all[..|inputs|] == inputs && all[|inputs|] == Deliver(Received(n), now);
    var e := Run(cfg, inputs);
    var key := QualifyingKey(cfg, n).value;
    assert Run(cfg, all) == Next(cfg, e, Deliver(Received(n), now));
    assert Run(cfg, all).reg == Debounce.Event(e.reg, key, now, WaitFor(cfg.waitTime));
    RunDeadlines(cfg, inputs);
    assert forall i :: 0 <= i < |inputs| ==> inputs[i].now <= now by {
      forall i | 0 <= i < |inputs| ensures inputs[i].now <= now {
        assert all[i] == inputs[i] && all[|inputs|].now == now;
      }
    }
    LastEventNotAfter(cfg, inputs, QualifyingKey(cfg, n).value, now);
  }

  /** The end-to-end scenario: root /src, destination /dst, a wait of 2 seconds, and writes
      to /src/a.txt at 0s and 1s. */
  const ScenarioConfig: Config := Config(["src"], ["dst"], 2, CharPrefix)
  const ScenarioWrite: Read := Received(Notification(Some(["src", "a.txt"]), FAN_CLOSE_WRITE))
  const ScenarioWrites: seq<Input> := [Deliver(ScenarioWrite, 0), Deliver(ScenarioWrite, 1_000_000_000)]

  /** The engine after both writes: one timer for "a.txt", due at 3s. */
  const ScenarioEngine: Engine :=
    Engine(Debounce.Registry(map["a.txt" := Debounce.Armed(0, 3_000_000_000)], 1), [], false)

  /** The engine after the first write: the timer for "a.txt", due at 2s. */
  const ScenarioFirst: Engine :=
    Engine(Debounce.Registry(map["a.txt" := Debounce.Armed(0, 2_000_000_000)], 1), [], false)

  /** A write to /src/a.txt gets past the filter as written and arms the key "a.txt". */
  lemma ScenarioKey()
    ensures QualifyingKey(ScenarioConfig, ScenarioWrite.n) == Some("a.txt")
    ensures WaitFor(ScenarioConfig.waitTime) == 2_000_000_000
  {
    assert Paths.Within(["src", "a.txt"], ["src"]) by {
      assert ["src", "a.txt"][..1] == ["src"];
    }
    Classifier.DirectChildKey(["src", "a.txt"], ["src"]);
  }

  /** The first write creates the timer and arms it for 2s. */
  lemma ScenarioFirstWrite()
    ensures Run(ScenarioConfig, [ScenarioWrites[0]]) == ScenarioFirst
  {
    ScenarioKey();
    var a := ScenarioWrites[0];
    RunSnoc(ScenarioConfig, [], a);
    assert [] + [a] == [a];
    var r := Debounce.Event(Debounce.Empty, "a.txt", 0, 2_000_000_000);
    assert r.timers == ScenarioFirst.reg.timers;
  }

  /** The second write resets the timer the first one armed for 2s, keeping the same timer. */
  lemma ScenarioAfterWrites()
    ensures Run(ScenarioConfig, ScenarioWrites) == ScenarioEngine
  {
    ScenarioKey();
    ScenarioFirstWrite();
    var a := ScenarioWrites[0];
    var b := ScenarioWrites[1];
    RunSnoc(ScenarioConfig, [a], b);
    assert [a] + [b] == ScenarioWrites;
    var r := Debounce.Event(ScenarioFirst.reg, "a.txt", 1_000_000_000, 2_000_000_000);
    assert r.timers == ScenarioEngine.reg.timers;
  }

  /** The sibling-directory case over a trace, with roots /data/in and /mnt/out and a wait
      of 2 seconds: a write to /data/in2/f.txt, then the ".." timer's delivery at 2s. */
  const SiblingConfig: Config := Config(["data", "in"], ["mnt", "out"], 2, CharPrefix)
  const SiblingWrite: Input :=
    Deliver(Received(Notification(Some(["data", "in2", "f.txt"]), FAN_CLOSE_WRITE)), 0)
  const SiblingTrace: seq<Input> := [SiblingWrite, Due("..", 2_000_000_000)]

  /** As written, the loop arms the key ".." for the sibling's write, and its timer asks to
      move /data to /mnt. With the corrected filter the same trace moves nothing. */
  lemma SiblingDirectoryMovesParent()
    ensures Run(SiblingConfig, SiblingTrace).moves == [Debounce.Move(["data"], ["mnt"])]
    ensures Run(SiblingConfig.(filter := Contained), SiblingTrace).moves == []
  {
    SiblingAsWritten();
    SiblingCorrected();
  }

  /** The sibling's write gets past the filter as written and arms the key "..". */
  lemma SiblingKey()
    ensures QualifyingKey(SiblingConfig, SiblingWrite.read.n) == Some("..")
    ensures QualifyingKey(SiblingConfig.(filter := Contained), SiblingWrite.read.n) == None
    ensures WaitFor(SiblingConfig.waitTime) == 2_000_000_000
  {
    SiblingDirectoryPassesPrefixFilter();
    var path := ["data", "in2", "f.txt"];
    assert !Paths.Within(path, SiblingConfig.source);
    assert !Passes(Contained, SiblingConfig.source, path);
  }

  /** The engine after the sibling's write, as written: a timer for "..", due at 2s. */
  const SiblingArmed: Engine :=
    Engine(Debounce.Registry(map[".." := Debounce.Armed(0, 2_000_000_000)], 1), [], false)

  /** The sibling's write arms "..". */
  lemma SiblingArms()
    ensures Run(SiblingConfig, [SiblingWrite]) == SiblingArmed
  {
    SiblingKey();
    RunSnoc(SiblingConfig, [], SiblingWrite);
    assert [] + [SiblingWrite] == [SiblingWrite];
    assert Debounce.Event(Debounce.Empty, "..", 0, 2_000_000_000).timers == SiblingArmed.reg.timers;
  }

  /** At 2s the ".." timer moves the parent of the source root to the parent of the
      destination root. */
  lemma SiblingFires()
    ensures Next(SiblingConfig, SiblingArmed, Due("..", 2_000_000_000)).moves == [Debounce.Move(["data"], ["mnt"])]
  {
    Paths.JoinParent(["data", "in"]);
    Paths.JoinParent(["mnt", "out"]);
    assert ["data", "in"][..1] == ["data"];
    assert ["mnt", "out"][..1] == ["mnt"];
    var fired := Debounce.Expire(SiblingArmed.reg, "..", 2_000_000_000, ["data", "in"], ["mnt", "out"]);
    assert fired.Some?;
    assert fired.value.move == Debounce.Move(["data"], ["mnt"]);
  }

  /** The sibling's write arms "..", and at 2s its timer moves the parents of both roots. */
  lemma SiblingAsWritten()
    ensures Run(SiblingConfig, SiblingTrace).moves == [Debounce.Move(["data"], ["mnt"])]
  {
    SiblingArms();
    SiblingFires();
    RunSnoc(SiblingConfig, [SiblingWrite], Due("..", 2_000_000_000));
    assert [SiblingWrite] + [Due("..", 2_000_000_000)] == SiblingTrace;
  }

  /** Behind the corrected filter the sibling's write arms nothing, so nothing moves. */
  lemma SiblingCorrected()
    ensures Run(SiblingConfig.(filter := Contained), SiblingTrace).moves == []
  {
    SiblingKey();
    var cfg := SiblingConfig.(filter := Contained);
    RunSnoc(cfg, [], SiblingWrite);
    assert [] + [SiblingWrite] == [SiblingWrite];
    RunSnoc(cfg, [SiblingWrite], Due("..", 2_000_000_000));
    assert [SiblingWrite] + [Due("..", 2_000_000_000)] == SiblingTrace;
  }

  /** From there, the timer is not due at 2s; at 3s /src/a.txt moves to /dst/a.txt and the
      entry is retired; offered 4s after that, nothing more moves. */
  lemma DebounceScenario()
    ensures Next(ScenarioConfig, ScenarioEngine, Due("a.txt", 2_000_000_000)) == ScenarioEngine
    ensures Next(ScenarioConfig, ScenarioEngine, Due("a.txt", 3_000_000_000))
         == Engine(Debounce.Registry(map[], 1), [Debounce.Move(["src", "a.txt"], ["dst", "a.txt"])], false)
    ensures var e := Next(ScenarioConfig, ScenarioEngine, Due("a.txt", 3_000_000_000));
      Next(ScenarioConfig, e, Due("a.txt", 4_000_000_000)) == e
  {
    var e := ScenarioEngine;
    assert Paths.IsName("a.txt");
    var o := Debounce.Expire(e.reg, "a.txt", 3_000_000_000, ["src"], ["dst"]);
    assert o.Some?;
    Debounce.ExpireMovesEntry(e.reg, "a.txt", 3_000_000_000, ["src"], ["dst"]);
    assert o.value.move == Debounce.Move(["src", "a.txt"], ["dst", "a.txt"]);
    assert o.value.next == Debounce.Registry(map[], 1);
    assert Next(ScenarioConfig, e, Due("a.txt", 3_000_000_000)) == Engine(o.value.next, e.moves + [o.value.move], false);
  }
}
