/**
 Helper processes that publish missing /dev/loopN nodes, running concurrently over one shared /dev.
 Every system call is one atomic step; processes interleave in any order.
 */
module LoopDevices {
  import opened Common

  const LOOP_MAJOR: int := 7

  datatype Node = Block(major: int, minor: int) | OtherFile

  /** The loop part of /dev: what occupies /dev/loopN, by N. Device numbers are unsigned in the kernel;
      nothing below depends on their sign. */
  type Dev = map<int, Node>

  /** A /sys/block entry: another kind of device, or loopN with the numbers its `dev` file gives
      (none when the file cannot be read or parsed). */
  datatype Entry = NotLoop | Loop(minor: int, numbers: Option<(int, int)>)

  datatype Counts = Counts(kernel: nat, created: nat, existing: nat)

  datatype Phase = Scanning | Creating | Rechecking | Finished | Failed

  datatype Helper = Helper(entries: seq<Entry>, next: nat, phase: Phase, counts: Counts)

  function Exact(minor: int): Node { Block(LOOP_MAJOR, minor) }

  predicate Consistent(e: Entry) {
    e.Loop? ==> e.numbers == Some((LOOP_MAJOR, e.minor))
  }

  /** How many of the first `n` entries are loop devices. */
  function LoopCount(entries: seq<Entry>, n: nat): nat
    requires n <= |entries|
  {
    if n == 0 then 0 else LoopCount(entries, n - 1) + if entries[n - 1].Loop? then 1 else 0
  }

  function Found(h: Helper): Helper {
    h.(next := h.next + 1, phase := Scanning, counts := h.counts.(existing := h.counts.existing + 1))
  }

  function Made(h: Helper): Helper {
    h.(next := h.next + 1, phase := Scanning, counts := h.counts.(created := h.counts.created + 1))
  }

  /** The helper stands at one of its entries, or past them all; to create or recheck a node, at a loop. */
  predicate AtEntry(h: Helper) {
    h.next <= |h.entries| && (h.phase.Creating? || h.phase.Rechecking? ==> h.next < |h.entries| && h.entries[h.next].Loop?)
  }

  /** One step of a helper; `fault` makes its system call fail for some other reason. */
  function Step(dev: Dev, h: Helper, fault: bool): (Dev, Helper)
    requires AtEntry(h)
  {
    match h.phase
    case Finished => (dev, h)
    case Failed => (dev, h)
    case Scanning =>
      if h.next == |h.entries| then (dev, h.(phase := Finished))
      else if h.entries[h.next].NotLoop? then (dev, h.(next := h.next + 1))
      else
        var e := h.entries[h.next];
        var seen := h.(counts := h.counts.(kernel := h.counts.kernel + 1));
        if !Consistent(e) || fault then (dev, seen.(phase := Failed))
        else if e.minor !in dev then (dev, seen.(phase := Creating))
        else if dev[e.minor] == Exact(e.minor) then (dev, Found(seen))
        else (dev, seen.(phase := Failed))
    case Creating =>
      var m := h.entries[h.next].minor;
      if fault then (dev, h.(phase := Failed))
      else if m !in dev then (dev[m := Exact(m)], Made(h))
      else (dev, h.(phase := Rechecking))
    case Rechecking =>
      var m := h.entries[h.next].minor;
      if fault || m !in dev || dev[m] != Exact(m) then (dev, h.(phase := Failed))
      else (dev, Found(h))
  }

  // ---- one helper on its own

  /** The exact node is there for a consistent loop entry. */
  ghost predicate Settled(dev: Dev, e: Entry) {
    e.Loop? ==> Consistent(e) && e.minor in dev && dev[e.minor] == Exact(e.minor)
  }

  ghost predicate Visited(dev: Dev, entries: seq<Entry>, n: nat)
    requires n <= |entries|
  {
    forall i :: 0 <= i < n ==> Settled(dev, entries[i])
  }

  /** /dev only ever gains exact nodes. */
  ghost predicate Grown(dev0: Dev, dev: Dev) {
    && (forall m :: m in dev0 ==> m in dev && dev[m] == dev0[m])
    && (forall m :: m in dev && m !in dev0 ==> dev[m] == Exact(m))
  }

  /** Nothing stands in the way of an entry: it is consistent, and what already occupies its path is the
      exact node. */
  ghost predicate Unobstructed(dev0: Dev, e: Entry) {
    e.Loop? ==> Consistent(e) && (e.minor in dev0 ==> dev0[e.minor] == Exact(e.minor))
  }

  ghost predicate Clean(dev0: Dev, entries: seq<Entry>) {
    forall i :: 0 <= i < |entries| ==> Unobstructed(dev0, entries[i])
  }

  lemma AddedNode(dev: Dev, m: int)
    requires m !in dev
    ensures |dev[m := Exact(m)]| == |dev| + 1 && dev[m := Exact(m)].Keys == dev.Keys + {m}
  {
    assert dev[m := Exact(m)].Keys == dev.Keys + {m};
  }

  lemma VisitedLater(dev: Dev, dev': Dev, entries: seq<Entry>, n: nat)
    requires n < |entries| && Visited(dev, entries, n) && Grown(dev, dev') && Settled(dev', entries[n])
    ensures Visited(dev', entries, n + 1)
  {
    assert forall i :: 0 <= i < n ==> Settled(dev, entries[i]) && Settled(dev', entries[i]);
  }

  lemma VisitedIsClean(dev0: Dev, dev: Dev, entries: seq<Entry>)
    requires Visited(dev, entries, |entries|) && Grown(dev0, dev)
    ensures Clean(dev0, entries)
  {
    assert forall j :: 0 <= j < |entries| ==> Settled(dev, entries[j]);
  }

  /** Every node added belongs to one of the first `n` entries. */
  ghost predicate OnlyFrom(dev0: Dev, dev: Dev, entries: seq<Entry>, n: nat)
    requires n <= |entries|
  {
    forall m :: m in dev && m !in dev0 ==> exists i :: 0 <= i < n && entries[i].Loop? && entries[i].minor == m
  }

  /** After `n` entries: /dev holds what was there and the nodes visited, and the counters say so. */
  ghost predicate Progress(dev0: Dev, dev: Dev, entries: seq<Entry>, n: nat, c: Counts)
    requires n <= |entries|
  {
    && Grown(dev0, dev) && OnlyFrom(dev0, dev, entries, n) && Visited(dev, entries, n)
    && c.kernel == LoopCount(entries, n) == c.created + c.existing
    && c.created == |dev| - |dev0|
  }

  lemma ProgressMade(dev0: Dev, dev: Dev, entries: seq<Entry>, n: nat, c: Counts)
    requires n < |entries| && Progress(dev0, dev, entries, n, c)
    requires entries[n].Loop? && Consistent(entries[n]) && entries[n].minor !in dev
    ensures Progress(dev0, dev[entries[n].minor := Exact(entries[n].minor)], entries, n + 1, Counts(c.kernel + 1, c.created + 1, c.existing))
  {
    var m := entries[n].minor;
    var dev' := dev[m := Exact(m)];
    AddedNode(dev, m);
    VisitedLater(dev, dev', entries, n);
    forall x | x in dev' && x !in dev0 ensures exists i :: 0 <= i < n + 1 && entries[i].Loop? && entries[i].minor == x {
      if x == m {
        assert entries[n].minor == x;
      } else {
        assert x in dev;
      }
    }
  }

  lemma ProgressFound(dev0: Dev, dev: Dev, entries: seq<Entry>, n: nat, c: Counts)
    requires n < |entries| && Progress(dev0, dev, entries, n, c)
    requires entries[n].Loop? && Settled(dev, entries[n])
    ensures Progress(dev0, dev, entries, n + 1, Counts(c.kernel + 1, c.created, c.existing + 1))
  {
  }

  lemma ProgressSkip(dev0: Dev, dev: Dev, entries: seq<Entry>, n: nat, c: Counts)
    requires n < |entries| && Progress(dev0, dev, entries, n, c) && !entries[n].Loop?
    ensures Progress(dev0, dev, entries, n + 1, c)
  {
  }

  /** One turn of the loop: check the entry's path and create its node if it is missing. */
  method SynchronizeEntry(ghost dev0: Dev, dev: Dev, entries: seq<Entry>, n: nat, c: Counts) returns (dev': Dev, c': Counts, ok: bool)
    requires n < |entries| && Progress(dev0, dev, entries, n, c)
    ensures ok ==> Progress(dev0, dev', entries, n + 1, c')
    ensures !ok ==> dev' == dev && c' == c && !Unobstructed(dev0, entries[n])
  {
    var e := entries[n];
    if e.NotLoop? {
      ProgressSkip(dev0, dev, entries, n, c);
      return dev, c, true;
    }
    if !Consistent(e) || (e.minor in dev && dev[e.minor] != Exact(e.minor)) {
      return dev, c, false;
    }
    if e.minor in dev {
      ProgressFound(dev0, dev, entries, n, c);
      return dev, Counts(c.kernel + 1, c.created, c.existing + 1), true;
    }
    ProgressMade(dev0, dev, entries, n, c);
    return dev[e.minor := Exact(e.minor)], Counts(c.kernel + 1, c.created + 1, c.existing), true;
  }

  /** How a lone helper ends: past all entries, or at the first that something stands in the way of;
      either way with exactly the missing nodes of the entries before it made. */
  ghost predicate Outcome(dev0: Dev, entries: seq<Entry>, dev: Dev, counts: Option<Counts>) {
    exists n: nat, c :: EndsAt(dev0, entries, dev, counts, n, c)
  }

  ghost predicate EndsAt(dev0: Dev, entries: seq<Entry>, dev: Dev, counts: Option<Counts>, n: nat, c: Counts) {
    && n <= |entries| && Progress(dev0, dev, entries, n, c)
    && if n == |entries| then counts == Some(c) else counts.None? && !Unobstructed(dev0, entries[n])
  }

  // ---- the same in numbers

  /** A loop device N has the kernel numbers 7:N, and /dev/loopN is the block device of those numbers. */
  ghost predicate HasNode(dev: Dev, e: Entry) {
    e.Loop? ==> e.numbers == Some((7, e.minor)) && e.minor in dev && dev[e.minor] == Block(7, e.minor)
  }

  ghost predicate AllNodes(dev: Dev, entries: seq<Entry>) {
    forall i :: 0 <= i < |entries| ==> HasNode(dev, entries[i])
  }

  /** What was there is there unchanged; whatever else is there is 7:N at loopN, for one of the loop
      devices listed. */
  ghost predicate AddsNodes(dev0: Dev, dev: Dev, entries: seq<Entry>) {
    && (forall m :: m in dev0 ==> m in dev && dev[m] == dev0[m])
    && (forall m :: m in dev && m !in dev0 ==> dev[m] == Block(7, m) && exists i :: 0 <= i < |entries| && entries[i].Loop? && entries[i].minor == m)
  }

  /** The entry cannot be served: other numbers than 7:N, or something else than 7:N at its path. */
  ghost predicate Blocks(dev0: Dev, e: Entry) {
    e.Loop? && (e.numbers != Some((7, e.minor)) || (e.minor in dev0 && dev0[e.minor] != Block(7, e.minor)))
  }

  ghost function LoopsAmong(entries: seq<Entry>, n: nat): set<int>
    requires n <= |entries|
  {
    set i | 0 <= i < n && entries[i].Loop?
  }

  lemma {:induction false} LoopCountIsSize(entries: seq<Entry>, n: nat)
    requires n <= |entries|
    ensures LoopCount(entries, n) == |LoopsAmong(entries, n)|
  {
    if n == 0 {
      assert LoopsAmong(entries, 0) == {};
    } else {
      LoopCountIsSize(entries, n - 1);
      assert LoopsAmong(entries, n) == LoopsAmong(entries, n - 1) + if entries[n - 1].Loop? then {n - 1} else {};
    }
  }

  lemma ProgressInFull(dev0: Dev, dev: Dev, entries: seq<Entry>, c: Counts)
    requires Progress(dev0, dev, entries, |entries|, c)
    ensures AllNodes(dev, entries) && AddsNodes(dev0, dev, entries)
    ensures c.kernel == |LoopsAmong(entries, |entries|)| && c.created == |dev| - |dev0| && c.existing == c.kernel - c.created
  {
    LoopCountIsSize(entries, |entries|);
    forall i | 0 <= i < |entries| ensures HasNode(dev, entries[i]) {
      assert Settled(dev, entries[i]);
    }
  }

  lemma BlocksExactly(dev0: Dev, e: Entry)
    ensures Blocks(dev0, e) <==> !Unobstructed(dev0, e)
  {
  }

  /** The synchronization loop, with no other process and no faults: it succeeds exactly when nothing
      stands in its way, and then /dev gained exactly the missing nodes. */
  method Synchronize(dev0: Dev, entries: seq<Entry>) returns (dev: Dev, counts: Option<Counts>)
    ensures counts.None? <==> exists i :: 0 <= i < |entries| && Blocks(dev0, entries[i])
    ensures counts.Some? ==>
              && AllNodes(dev, entries) && counts.value.kernel == |LoopsAmong(entries, |entries|)|
              && counts.value.created == |dev| - |dev0| && counts.value.existing == counts.value.kernel - counts.value.created
    ensures AddsNodes(dev0, dev, entries)
    ensures Outcome(dev0, entries, dev, counts)
  {
    dev := dev0;
    var c := Counts(0, 0, 0);
    var i := 0;
    while i < |entries|
      invariant 0 <= i <= |entries| && Progress(dev0, dev, entries, i, c)
    {
      var ok;
      dev, c, ok := SynchronizeEntry(dev0, dev, entries, i, c);
      if !ok {
        assert EndsAt(dev0, entries, dev, None, i, c);
        BlocksExactly(dev0, entries[i]);
        return dev, None;
      }
      i := i + 1;
    }
    VisitedIsClean(dev0, dev, entries);
    ProgressInFull(dev0, dev, entries, c);
    forall j | 0 <= j < |entries| ensures !Blocks(dev0, entries[j]) {
      BlocksExactly(dev0, entries[j]);
      assert Unobstructed(dev0, entries[j]);
    }
    assert EndsAt(dev0, entries, dev, Some(c), i, c);
    return dev, Some(c);
  }

  // ---- many helpers

  datatype System = System(dev: Dev, helpers: seq<Helper>)

  function TotalCreated(hs: seq<Helper>): nat {
    if hs == [] then 0 else TotalCreated(hs[..|hs| - 1]) + hs[|hs| - 1].counts.created
  }

  /** A helper's own bookkeeping, against the current /dev. */
  ghost predicate HelperOk(dev: Dev, h: Helper) {
    && h.next <= |h.entries|
    && (h.phase.Finished? ==> h.next == |h.entries|)
    && (h.phase.Creating? || h.phase.Rechecking? ==> h.next < |h.entries| && h.entries[h.next].Loop? && Consistent(h.entries[h.next]))
    && (h.phase.Rechecking? ==> h.entries[h.next].minor in dev)
    && Visited(dev, h.entries, h.next)
    && h.counts.created + h.counts.existing == LoopCount(h.entries, h.next)
    && (h.phase.Scanning? || h.phase.Finished? ==> h.counts.kernel == LoopCount(h.entries, h.next))
    && (h.phase.Creating? || h.phase.Rechecking? ==> h.counts.kernel == LoopCount(h.entries, h.next) + 1)
  }

  ghost predicate Inv(dev0: Dev, s: System) {
    && Grown(dev0, s.dev)
    && |s.dev| == |dev0| + TotalCreated(s.helpers)
    && forall i :: 0 <= i < |s.helpers| ==> HelperOk(s.dev, s.helpers[i])
  }

  function Begin(entries: seq<Entry>): Helper { Helper(entries, 0, Scanning, Counts(0, 0, 0)) }

  ghost predicate Initial(dev0: Dev, s: System) {
    s.dev == dev0 && forall i :: 0 <= i < |s.helpers| ==> s.helpers[i] == Begin(s.helpers[i].entries)
  }

  datatype Turn = Turn(helper: nat, fault: bool)

  ghost predicate Next(s: System, t: Turn, s': System) {
    && t.helper < |s.helpers|
    && AtEntry(s.helpers[t.helper])
    && var r := Step(s.dev, s.helpers[t.helper], t.fault);
       s' == System(r.0, s.helpers[t.helper := r.1])
  }

  lemma ScanOk(dev: Dev, h: Helper, fault: bool)
    requires HelperOk(dev, h) && h.phase.Scanning?
    ensures HelperOk(dev, Step(dev, h, fault).1)
  {
  }

  lemma CreateOk(dev: Dev, h: Helper, fault: bool)
    requires HelperOk(dev, h) && h.phase.Creating?
    ensures HelperOk(Step(dev, h, fault).0, Step(dev, h, fault).1)
  {
  }

  lemma RecheckOk(dev: Dev, h: Helper, fault: bool)
    requires HelperOk(dev, h) && h.phase.Rechecking?
    ensures HelperOk(dev, Step(dev, h, fault).1)
  {
  }

  lemma StepGrows(dev: Dev, h: Helper, fault: bool)
    requires HelperOk(dev, h)
    ensures Grown(dev, Step(dev, h, fault).0)
    ensures |Step(dev, h, fault).0| == |dev| + Step(dev, h, fault).1.counts.created - h.counts.created
  {
    if h.phase.Creating? && h.entries[h.next].minor !in dev {
      AddedNode(dev, h.entries[h.next].minor);
    }
  }

  /** What one step does to /dev and to the helper that takes it. */
  lemma StepOk(dev: Dev, h: Helper, fault: bool)
    requires HelperOk(dev, h)
    ensures HelperOk(Step(dev, h, fault).0, Step(dev, h, fault).1) && Grown(dev, Step(dev, h, fault).0)
    ensures |Step(dev, h, fault).0| == |dev| + Step(dev, h, fault).1.counts.created - h.counts.created
  {
    StepGrows(dev, h, fault);
    match h.phase {
      case Scanning => ScanOk(dev, h, fault);
      case Creating => CreateOk(dev, h, fault);
      case Rechecking => RecheckOk(dev, h, fault);
      case _ =>
    }
  }

  /** A helper's bookkeeping survives the steps of others. */
  lemma OthersOk(dev: Dev, dev': Dev, h: Helper)
    requires HelperOk(dev, h) && Grown(dev, dev')
    ensures HelperOk(dev', h)
  {
  }

  lemma {:induction false} TotalUpdate(hs: seq<Helper>, i: nat, h: Helper)
    requires i < |hs|
    ensures TotalCreated(hs[i := h]) == TotalCreated(hs) + h.counts.created - hs[i].counts.created
  {
    var hs', n := hs[i := h], |hs| - 1;
    if i == n {
      assert hs'[..n] == hs[..n];
    } else {
      assert hs'[..n] == hs[..n][i := h];
      TotalUpdate(hs[..n], i, h);
    }
  }

  lemma NextKeepsInv(dev0: Dev, s: System, t: Turn, s': System)
    requires Inv(dev0, s) && Next(s, t, s')
    ensures Inv(dev0, s')
  {
    var h := s.helpers[t.helper];
    StepOk(s.dev, h, t.fault);
    TotalUpdate(s.helpers, t.helper, s'.helpers[t.helper]);
    forall i | 0 <= i < |s'.helpers| ensures HelperOk(s'.dev, s'.helpers[i]) {
      if i != t.helper {
        OthersOk(s.dev, s'.dev, s.helpers[i]);
      }
    }
  }

  /** A run: the states it passes through, one turn between each two. */
  ghost predicate Run(states: seq<System>, turns: seq<Turn>)
    decreases |turns|
  {
    && |states| == |turns| + 1
    && (turns == [] || (Next(states[0], turns[0], states[1]) && Run(states[1..], turns[1..])))
  }

  lemma {:induction false} RunKeepsInv(dev0: Dev, states: seq<System>, turns: seq<Turn>)
    requires Run(states, turns) && Inv(dev0, states[0])
    ensures Inv(dev0, states[|states| - 1])
    decreases |turns|
  {
    if turns != [] {
      NextKeepsInv(dev0, states[0], turns[0], states[1]);
      RunKeepsInv(dev0, states[1..], turns[1..]);
    }
  }

  lemma {:induction false} NothingCreatedYet(hs: seq<Helper>)
    requires forall i :: 0 <= i < |hs| ==> hs[i].counts == Counts(0, 0, 0)
    ensures TotalCreated(hs) == 0
  {
    if hs != [] {
      NothingCreatedYet(hs[..|hs| - 1]);
    }
  }

  /** For every interleaving of any number of helpers, whatever faults occur: no node present at the
      start changes and every node added is exact; the created counters add up to the nodes added;
      and each helper that finished has the exact node for every loop device it visited, with
      created + existing = kernel devices. */
  lemma ConcurrentSafety(dev0: Dev, states: seq<System>, turns: seq<Turn>)
    requires Run(states, turns) && Initial(dev0, states[0])
    ensures var s := states[|states| - 1];
            && (forall m :: m in dev0 ==> m in s.dev && s.dev[m] == dev0[m])
            && (forall m :: m in s.dev && m !in dev0 ==> s.dev[m] == Block(7, m))
            && TotalCreated(s.helpers) == |s.dev| - |dev0|
            && forall i :: 0 <= i < |s.helpers| && s.helpers[i].phase.Finished? ==> Successful(s.dev, s.helpers[i])
  {
    var first := states[0];
    NothingCreatedYet(first.helpers);
    RunKeepsInv(dev0, states, turns);
    var s := states[|states| - 1];
    forall i | 0 <= i < |s.helpers| && s.helpers[i].phase.Finished? ensures Successful(s.dev, s.helpers[i]) {
      var h := s.helpers[i];
      assert HelperOk(s.dev, h);
      LoopCountIsSize(h.entries, |h.entries|);
      forall j | 0 <= j < |h.entries| ensures HasNode(s.dev, h.entries[j]) {
        assert Settled(s.dev, h.entries[j]);
      }
    }
  }

  /** Every loop device listed has its node, and the counts are those of the loop devices listed. */
  ghost predicate Successful(dev: Dev, h: Helper) {
    AllNodes(dev, h.entries) && h.counts.kernel == |LoopsAmong(h.entries, |h.entries|)| == h.counts.created + h.counts.existing
  }

  /** A system call that fails for another reason fails the helper, and changes nothing. */
  lemma FaultsFail(dev: Dev, h: Helper)
    requires AtEntry(h) && (h.phase.Scanning? ==> h.next < |h.entries| && h.entries[h.next].Loop?)
    ensures Step(dev, h, true).0 == dev
    ensures h.phase.Scanning? || h.phase.Creating? || h.phase.Rechecking? ==> Step(dev, h, true).1.phase.Failed?
    ensures h.phase.Finished? || h.phase.Failed? ==> Step(dev, h, true).1 == h
  {
  }

  // ---- why a helper fails

  ghost predicate FailuresExplained(dev0: Dev, s: System) {
    forall i :: 0 <= i < |s.helpers| && s.helpers[i].phase.Failed? ==> !Clean(dev0, s.helpers[i].entries)
  }

  lemma NextExplainsFailures(dev0: Dev, s: System, t: Turn, s': System)
    requires Inv(dev0, s) && FailuresExplained(dev0, s) && Next(s, t, s') && !t.fault
    ensures FailuresExplained(dev0, s')
  {
    var h, h' := s.helpers[t.helper], s'.helpers[t.helper];
    if h'.phase.Failed? && !h.phase.Failed? {
      var e := h.entries[h.next];
      assert !Consistent(e) || (e.minor in s.dev && s.dev[e.minor] != Exact(e.minor));
      assert !Unobstructed(dev0, e);
    }
  }

  lemma {:induction false} RunExplainsFailures(dev0: Dev, states: seq<System>, turns: seq<Turn>)
    requires Run(states, turns) && Inv(dev0, states[0]) && FailuresExplained(dev0, states[0])
    requires forall t :: t in turns ==> !t.fault
    ensures FailuresExplained(dev0, states[|states| - 1])
    decreases |turns|
  {
    if turns != [] {
      assert turns[0] in turns;
      NextKeepsInv(dev0, states[0], turns[0], states[1]);
      NextExplainsFailures(dev0, states[0], turns[0], states[1]);
      RunExplainsFailures(dev0, states[1..], turns[1..]);
    }
  }

  /** Without faults a helper that has ended failed exactly if, at the start, an entry it had to visit
      was inconsistent or a foreign file occupied its path. Losing a race never fails a helper. */
  lemma EndsWellIffClean(dev0: Dev, states: seq<System>, turns: seq<Turn>, i: nat)
    requires Run(states, turns) && Initial(dev0, states[0]) && forall t :: t in turns ==> !t.fault
    requires i < |states[|states| - 1].helpers|
    ensures var h := states[|states| - 1].helpers[i];
            && (h.phase.Failed? ==> exists j :: 0 <= j < |h.entries| && Blocks(dev0, h.entries[j]))
            && (h.phase.Finished? ==> forall j :: 0 <= j < |h.entries| ==> !Blocks(dev0, h.entries[j]))
  {
    var first := states[0];
    NothingCreatedYet(first.helpers);
    RunKeepsInv(dev0, states, turns);
    RunExplainsFailures(dev0, states, turns);
    var s := states[|states| - 1];
    var h := s.helpers[i];
    assert HelperOk(s.dev, h);
    forall j | 0 <= j < |h.entries| ensures Blocks(dev0, h.entries[j]) <==> !Unobstructed(dev0, h.entries[j]) {
      BlocksExactly(dev0, h.entries[j]);
    }
    if h.phase.Finished? {
      assert forall j :: 0 <= j < |h.entries| ==> Settled(s.dev, h.entries[j]);
      assert Clean(dev0, h.entries);
    }
  }

  // ---- a lone helper is the loop

  lemma ProgressAgrees(dev0: Dev, entries: seq<Entry>, n: nat, dev: Dev, c: Counts, dev': Dev, c': Counts)
    requires n <= |entries| && Progress(dev0, dev, entries, n, c) && Progress(dev0, dev', entries, n, c')
    ensures dev == dev' && c == c'
  {
    forall m ensures m in dev <==> m in dev' {
      if m in dev && m !in dev0 {
        var i :| 0 <= i < n && entries[i].Loop? && entries[i].minor == m;
        assert Settled(dev', entries[i]);
      }
      if m in dev' && m !in dev0 {
        var i :| 0 <= i < n && entries[i].Loop? && entries[i].minor == m;
        assert Settled(dev, entries[i]);
      }
    }
    forall m | m in dev ensures dev[m] == dev'[m] {
    }
  }

  /** Nothing stood in the way of the entries passed. */
  lemma PassedUnobstructed(dev0: Dev, dev: Dev, entries: seq<Entry>, n: nat, c: Counts, i: nat)
    requires n <= |entries| && Progress(dev0, dev, entries, n, c) && i < n
    ensures Unobstructed(dev0, entries[i])
  {
    assert Settled(dev, entries[i]);
  }

  /** There is one way to end. */
  lemma OneOutcome(dev0: Dev, entries: seq<Entry>, dev: Dev, counts: Option<Counts>, dev': Dev, counts': Option<Counts>)
    requires Outcome(dev0, entries, dev, counts) && Outcome(dev0, entries, dev', counts')
    ensures dev == dev' && counts == counts'
  {
    var n: nat, c :| EndsAt(dev0, entries, dev, counts, n, c);
    var n': nat, c' :| EndsAt(dev0, entries, dev', counts', n', c');
    if n < n' {
      PassedUnobstructed(dev0, dev', entries, n', c', n);
    } else if n' < n {
      PassedUnobstructed(dev0, dev, entries, n, c, n');
    }
    ProgressAgrees(dev0, entries, n, dev, c, dev', c');
  }

  /** The state of a helper that has /dev to itself and meets no faults. */
  ghost predicate Alone(dev0: Dev, dev: Dev, h: Helper) {
    && AtEntry(h)
    && match h.phase
       case Scanning => Progress(dev0, dev, h.entries, h.next, h.counts)
       case Creating =>
         && h.counts.kernel > 0 && Progress(dev0, dev, h.entries, h.next, h.counts.(kernel := h.counts.kernel - 1))
         && Consistent(h.entries[h.next]) && h.entries[h.next].minor !in dev
       case Rechecking => false
       case Finished => EndsAt(dev0, h.entries, dev, Some(h.counts), |h.entries|, h.counts)
       case Failed => Outcome(dev0, h.entries, dev, None)
  }

  lemma AloneScans(dev0: Dev, dev: Dev, h: Helper)
    requires Alone(dev0, dev, h) && h.phase.Scanning?
    ensures Alone(dev0, dev, Step(dev, h, false).1)
  {
    var h' := Step(dev, h, false).1;
    if h.next < |h.entries| {
      var e := h.entries[h.next];
      if e.NotLoop? {
        ProgressSkip(dev0, dev, h.entries, h.next, h.counts);
      } else if h'.phase.Failed? {
        assert EndsAt(dev0, h.entries, dev, None, h.next, h.counts);
      } else if h'.phase.Scanning? {
        ProgressFound(dev0, dev, h.entries, h.next, h.counts);
      }
    }
  }

  lemma AloneCreates(dev0: Dev, dev: Dev, h: Helper)
    requires Alone(dev0, dev, h) && h.phase.Creating?
    ensures Alone(dev0, Step(dev, h, false).0, Step(dev, h, false).1)
  {
    ProgressMade(dev0, dev, h.entries, h.next, h.counts.(kernel := h.counts.kernel - 1));
  }

  lemma {:induction false} AloneRuns(dev0: Dev, states: seq<System>, turns: seq<Turn>)
    requires Run(states, turns) && |states[0].helpers| == 1 && forall t :: t in turns ==> !t.fault
    requires Alone(dev0, states[0].dev, states[0].helpers[0])
    ensures var s := states[|states| - 1];
            |s.helpers| == 1 && Alone(dev0, s.dev, s.helpers[0]) && s.helpers[0].entries == states[0].helpers[0].entries
    decreases |turns|
  {
    if turns != [] {
      var s := states[0];
      assert turns[0] in turns;
      match s.helpers[0].phase {
        case Scanning => AloneScans(dev0, s.dev, s.helpers[0]);
        case Creating => AloneCreates(dev0, s.dev, s.helpers[0]);
        case _ =>
      }
      AloneRuns(dev0, states[1..], turns[1..]);
    }
  }

  /** A lone helper without faults, once it has ended, has done to /dev and counted exactly what the
      loop `Synchronize` does, and failed exactly when that does. */
  lemma LoneRunIsSynchronize(dev0: Dev, entries: seq<Entry>, states: seq<System>, turns: seq<Turn>, dev: Dev, counts: Option<Counts>)
    requires Run(states, turns) && states[0] == System(dev0, [Begin(entries)]) && forall t :: t in turns ==> !t.fault
    requires Outcome(dev0, entries, dev, counts)
    ensures var s := states[|states| - 1];
            && |s.helpers| == 1
            && (s.helpers[0].phase.Finished? ==> s.dev == dev && counts == Some(s.helpers[0].counts))
            && (s.helpers[0].phase.Failed? ==> s.dev == dev && counts == None)
  {
    AloneRuns(dev0, states, turns);
    var s := states[|states| - 1];
    var h := s.helpers[0];
    if h.phase.Finished? {
      assert Outcome(dev0, entries, s.dev, Some(h.counts));
      OneOutcome(dev0, entries, dev, counts, s.dev, Some(h.counts));
    } else if h.phase.Failed? {
      OneOutcome(dev0, entries, dev, counts, s.dev, None);
    }
  }

  // ---- progress

  /** How many more steps a helper can take. */
  function StepsLeft(h: Helper): nat
    requires h.next <= |h.entries|
  {
    if h.phase.Finished? || h.phase.Failed? then 0
    else 3 * (|h.entries| - h.next) + (if h.phase.Scanning? then 1 else if h.phase.Creating? then 0 else -1) + 1
  }

  /** Every turn of a helper that has not ended brings its end nearer, whatever the others do. */
  lemma TurnsRunOut(dev: Dev, h: Helper, fault: bool)
    requires HelperOk(dev, h) && !h.phase.Finished? && !h.phase.Failed?
    ensures HelperOk(Step(dev, h, fault).0, Step(dev, h, fault).1)
    ensures StepsLeft(Step(dev, h, fault).1) < StepsLeft(h) <= 3 * |h.entries| + 2
  {
    StepOk(dev, h, fault);
  }
}
