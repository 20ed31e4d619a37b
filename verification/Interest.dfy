/** The poller's bookkeeping as a state machine: two handler maps in user space and the
    kernel's interest table, which is edited only through ADD, MOD and DEL. */
module Interest {
  import opened Wrappers

  type Handler = nat

  datatype Mask = Mask(input: bool, output: bool)
  datatype CtlOp = Add | Mod | Del

  datatype Poll = Poll(readers: map<int, Handler>, writers: map<int, Handler>, kernel: map<int, Mask>)

  datatype Call =
    | RegisterRead(fd: int, handler: Handler)
    | RegisterWrite(fd: int, handler: Handler)
    | DeregisterRead(fd: int)
    | DeregisterWrite(fd: int)
  {
    predicate IsRead() { RegisterRead? || DeregisterRead? }
    predicate IsRegister() { RegisterRead? || RegisterWrite? }
  }

  /** The contract of epoll_ctl.  `refused` stands for every failure that the table itself
      does not explain (no memory, a limit, a bad descriptor); a failing call changes nothing. */
  function EpollCtl(kernel: map<int, Mask>, op: CtlOp, fd: int, mask: Mask, refused: bool): (map<int, Mask>, bool) {
    if refused || (op == Add) == (fd in kernel) then (kernel, false)
    else if op == Del then (kernel - {fd}, true)
    else (kernel[fd := mask], true)
  }

  /** The operation and event mask of one request, chosen by looking at the opposite map. */
  function Request(s: Poll, fd: int, isRead: bool, isRegister: bool): (CtlOp, Mask) {
    if fd in (if isRead then s.writers else s.readers) then
      (Mod, if isRegister then Mask(true, true) else if isRead then Mask(false, true) else Mask(true, false))
    else
      (if isRegister then Add else Del, if isRead then Mask(true, false) else Mask(false, true))
  }

  function DoRegister(s: Poll, fd: int, isRead: bool, isRegister: bool, refused: bool): (Poll, bool) {
    var (op, mask) := Request(s, fd, isRead, isRegister);
    var (kernel, ok) := EpollCtl(s.kernel, op, fd, mask, refused);
    (s.(kernel := kernel), ok)
  }

  function Step(s: Poll, c: Call, refused: bool): (Poll, bool) {
    match c
    case RegisterRead(fd, h) =>
      var (s1, ok) := DoRegister(s, fd, true, true, refused);
      (if ok then s1.(readers := s1.readers[fd := h]) else s1, ok)
    case RegisterWrite(fd, h) =>
      var (s1, ok) := DoRegister(s, fd, false, true, refused);
      (if ok then s1.(writers := s1.writers[fd := h]) else s1, ok)
    case DeregisterRead(fd) =>
      DoRegister(s.(readers := s.readers - {fd}), fd, true, false, refused)
    case DeregisterWrite(fd) =>
      DoRegister(s.(writers := s.writers - {fd}), fd, false, false, refused)
  }

  const Empty := Poll(map[], map[], map[])

  /** A run is a list of calls, each with the kernel's verdict. */
  function Run(s: Poll, calls: seq<(Call, bool)>): Poll
    decreases |calls|
  {
    if calls == [] then s else Run(Step(s, calls[0].0, calls[0].1).0, calls[1..])
  }

  // ---------- Agreement with the handler maps ----------

  /** The interest a descriptor should have, seen from the handler maps alone. */
  ghost predicate AgreesAt(s: Poll, fd: int) {
    if fd in s.readers || fd in s.writers then
      fd in s.kernel && s.kernel[fd] == Mask(fd in s.readers, fd in s.writers)
    else fd !in s.kernel
  }

  ghost predicate Agrees(s: Poll) {
    forall fd :: AgreesAt(s, fd)
  }

  /** Every installed handler's event is in the kernel mask of its descriptor. */
  ghost predicate Covered(s: Poll) {
    && (forall fd :: fd in s.readers ==> fd in s.kernel && s.kernel[fd].input)
    && (forall fd :: fd in s.writers ==> fd in s.kernel && s.kernel[fd].output)
  }

  ghost predicate Installed(s: Poll, c: Call) {
    if c.IsRead() then c.fd in s.readers else c.fd in s.writers
  }

  lemma StepElsewhere(s: Poll, c: Call, refused: bool, fd: int)
    requires fd != c.fd
    ensures AgreesAt(Step(s, c, refused).0, fd) <==> AgreesAt(s, fd)
  {
  }

  /** From any state at all, a call that returns true leaves the kernel's entry for its
      descriptor in exact agreement with the handlers. */
  lemma SuccessResynchronises(s: Poll, c: Call, refused: bool)
    requires Step(s, c, refused).1
    ensures AgreesAt(Step(s, c, refused).0, c.fd)
  {
  }

  /** Agreement survives a call exactly when the call is not a refused removal of an
      installed handler: failed registrations never hurt. */
  lemma AgreementKeptExactly(s: Poll, c: Call, refused: bool)
    requires Agrees(s)
    ensures Agrees(Step(s, c, refused).0) <==> !(refused && !c.IsRegister() && Installed(s, c))
  {
    var s' := Step(s, c, refused).0;
    forall fd | fd != c.fd ensures AgreesAt(s', fd) {
      StepElsewhere(s, c, refused, fd);
    }
    assert AgreesAt(s, c.fd);
    assert AgreesAt(s', c.fd) <==> !(refused && !c.IsRegister() && Installed(s, c));
  }

  ghost predicate RemovalsHonoured(calls: seq<(Call, bool)>) {
    forall k :: 0 <= k < |calls| && !calls[k].0.IsRegister() ==> !calls[k].1
  }

  /** Refinement over whole runs: as long as the kernel refuses registrations only, every
      reachable state has IN exactly for readers and OUT exactly for writers. */
  lemma {:induction false} RunAgrees(s: Poll, calls: seq<(Call, bool)>)
    requires Agrees(s) && RemovalsHonoured(calls)
    ensures Agrees(Run(s, calls))
    decreases |calls|
  {
    if calls != [] {
      AgreementKeptExactly(s, calls[0].0, calls[0].1);
      RunAgrees(Step(s, calls[0].0, calls[0].1).0, calls[1..]);
    }
  }

  lemma {:induction false} StepKeepsCovered(s: Poll, c: Call, refused: bool)
    requires Covered(s)
    ensures Covered(Step(s, c, refused).0)
  {
  }

  /** Under arbitrary refusals, every run still keeps every installed handler covered. */
  lemma {:induction false} RunCovered(s: Poll, calls: seq<(Call, bool)>)
    requires Covered(s)
    ensures Covered(Run(s, calls))
    decreases |calls|
  {
    if calls != [] {
      StepKeepsCovered(s, calls[0].0, calls[0].1);
      RunCovered(Step(s, calls[0].0, calls[0].1).0, calls[1..]);
    }
  }

  lemma {:induction false} RunJoin(s: Poll, a: seq<(Call, bool)>, b: seq<(Call, bool)>)
    ensures Run(s, a + b) == Run(Run(s, a), b)
    decreases |a|
  {
    if a == [] {
      assert a + b == b;
    } else {
      assert (a + b)[1..] == a[1..] + b;
      RunJoin(Step(s, a[0].0, a[0].1).0, a[1..], b);
    }
  }

  /** One call more at the end of a run. */
  lemma {:induction false} RunOneMore(s: Poll, calls: seq<(Call, bool)>, c: (Call, bool))
    ensures Run(s, calls + [c]) == Step(Run(s, calls), c.0, c.1).0
  {
    RunJoin(s, calls, [c]);
    assert [c][1..] == [];
  }

  /** The k-th call is for the descriptor and the kernel grants it. */
  ghost predicate Succeeds(s: Poll, calls: seq<(Call, bool)>, fd: int, k: nat)
    requires k < |calls|
  {
    calls[k].0.fd == fd && Step(Run(s, calls[..k]), calls[k].0, calls[k].1).1
  }

  /** The k-th call removes an installed handler of the descriptor and the kernel refuses it. */
  ghost predicate RemovalRefused(s: Poll, calls: seq<(Call, bool)>, fd: int, k: nat)
    requires k < |calls|
  {
    calls[k].0.fd == fd && calls[k].1 && !calls[k].0.IsRegister() && Installed(Run(s, calls[..k]), calls[k].0)
  }

  ghost predicate SucceedsFrom(s: Poll, calls: seq<(Call, bool)>, fd: int, n: nat) {
    exists k :: n <= k < |calls| && Succeeds(s, calls, fd, k)
  }

  /** The condition for agreement at the end of a run, in terms of its calls. */
  ghost predicate EndsInAgreement(s: Poll, calls: seq<(Call, bool)>, fd: int) {
    && (AgreesAt(s, fd) || SucceedsFrom(s, calls, fd, 0))
    && (forall k :: 0 <= k < |calls| && RemovalRefused(s, calls, fd, k) ==> SucceedsFrom(s, calls, fd, k + 1))
  }

  ghost predicate CoveredAt(s: Poll, fd: int) {
    && (fd in s.readers ==> fd in s.kernel && s.kernel[fd].input)
    && (fd in s.writers ==> fd in s.kernel && s.kernel[fd].output)
  }

  lemma {:induction false} RunCoveredAt(s: Poll, calls: seq<(Call, bool)>, fd: int)
    requires CoveredAt(s, fd)
    ensures CoveredAt(Run(s, calls), fd)
    decreases |calls|
  {
    if calls != [] {
      RunCoveredAt(Step(s, calls[0].0, calls[0].1).0, calls[1..], fd);
    }
  }

  /** How one call moves a covered descriptor in or out of agreement. */
  lemma {:induction false} StepAgreesIff(s: Poll, c: Call, refused: bool, fd: int)
    requires CoveredAt(s, fd)
    ensures var (s', ok) := Step(s, c, refused);
            AgreesAt(s', fd) <==>
              if c.fd == fd && ok then true
              else AgreesAt(s, fd) && !(c.fd == fd && refused && !c.IsRegister() && Installed(s, c))
  {
  }

  lemma {:induction false} CallsBefore(s: Poll, calls: seq<(Call, bool)>, c: (Call, bool), fd: int)
    ensures var all := calls + [c];
            && (forall k :: 0 <= k < |calls| ==> Succeeds(s, all, fd, k) == Succeeds(s, calls, fd, k))
            && (forall k :: 0 <= k < |calls| ==> RemovalRefused(s, all, fd, k) == RemovalRefused(s, calls, fd, k))
  {
    forall k | 0 <= k < |calls| ensures (calls + [c])[..k] == calls[..k] {
    }
    forall k | 0 <= k < |calls|
      ensures Succeeds(s, calls + [c], fd, k) == Succeeds(s, calls, fd, k)
      ensures RemovalRefused(s, calls + [c], fd, k) == RemovalRefused(s, calls, fd, k)
    {
      assert (calls + [c])[..k] == calls[..k];
    }
  }

  lemma {:induction false} AgreementOneMore(s: Poll, calls: seq<(Call, bool)>, c: (Call, bool), fd: int)
    ensures var all, n := calls + [c], |calls|;
            EndsInAgreement(s, all, fd) <==>
              Succeeds(s, all, fd, n) || (EndsInAgreement(s, calls, fd) && !RemovalRefused(s, all, fd, n))
  {
    var all, n := calls + [c], |calls|;
    CallsBefore(s, calls, c, fd);
    if Succeeds(s, all, fd, n) {
      assert forall k :: 0 <= k <= n ==> SucceedsFrom(s, all, fd, k);
    } else {
      forall k | 0 <= k <= n ensures SucceedsFrom(s, all, fd, k) <==> SucceedsFrom(s, calls, fd, k) {
        if SucceedsFrom(s, calls, fd, k) {
          var j :| k <= j < |calls| && Succeeds(s, calls, fd, j);
          assert Succeeds(s, all, fd, j);
        }
        if SucceedsFrom(s, all, fd, k) {
          var j :| k <= j < |all| && Succeeds(s, all, fd, j);
          assert Succeeds(s, calls, fd, j);
        }
      }
      assert !SucceedsFrom(s, all, fd, n + 1);
      if EndsInAgreement(s, all, fd) {
        forall k | 0 <= k < n && RemovalRefused(s, calls, fd, k) ensures SucceedsFrom(s, calls, fd, k + 1) {
          assert RemovalRefused(s, all, fd, k);
        }
      }
    }
  }

  /** Over every run from a state that covers a descriptor, with arbitrary refusals: its kernel entry
      agrees with its handlers at the end exactly when no refused removal of an installed handler is
      left without a later successful call, and it agreed at the start or some call succeeded. */
  lemma {:induction false} RunAgreesIff(s: Poll, calls: seq<(Call, bool)>, fd: int)
    requires CoveredAt(s, fd)
    ensures AgreesAt(Run(s, calls), fd) <==> EndsInAgreement(s, calls, fd)
    decreases |calls|
  {
    if calls != [] {
      var front, c := calls[..|calls| - 1], calls[|calls| - 1];
      assert front + [c] == calls && calls[..|front|] == front;
      RunAgreesIff(s, front, fd);
      RunOneMore(s, front, c);
      RunCoveredAt(s, front, fd);
      StepAgreesIff(Run(s, front), c.0, c.1, fd);
      AgreementOneMore(s, front, c, fd);
    }
  }

  /** What a call answers in an agreeing state.  A lone handler cannot be replaced: the ADD
      finds the descriptor present, so the old handler stays. */
  lemma Answers(s: Poll, c: Call)
    requires Agrees(s)
    ensures c.RegisterRead? ==> (Step(s, c, false).1 <==> c.fd !in s.readers || c.fd in s.writers)
    ensures c.RegisterWrite? ==> (Step(s, c, false).1 <==> c.fd !in s.writers || c.fd in s.readers)
    ensures !c.IsRegister() ==> (Step(s, c, false).1 <==> c.fd in s.readers || c.fd in s.writers)
    ensures c.IsRegister() && !Step(s, c, false).1 ==> Step(s, c, false).0 == s
  {
    assert AgreesAt(s, c.fd);
  }

  /** What a call answers in any state: nothing refused, and the kernel's entry is there exactly when
      the opposite handler is, for a registration, or at all, for a removal. */
  lemma {:induction false} AnswersIff(s: Poll, c: Call, refused: bool)
    ensures Step(s, c, refused).1 <==>
              !refused && (c.fd in s.kernel <==> (c.IsRegister() ==> HandlerOf(s, c.fd, !c.IsRead()).Some?))
  {
  }

  // ---------- Stale entries ----------

  /** The kernel watches a descriptor nobody handles. */
  ghost predicate Stale(s: Poll, fd: int) {
    fd in s.kernel && fd !in s.readers && fd !in s.writers
  }

  /** A refused removal of the last handler leaves a stale entry, and from then on no
      sequence of calls can install a handler for that descriptor without first
      deregistering it again. */
  lemma {:induction false} StaleBlocksRegistration(s: Poll, calls: seq<(Call, bool)>, fd: int)
    requires Stale(s, fd)
    requires forall k :: 0 <= k < |calls| && calls[k].0.fd == fd ==> calls[k].0.IsRegister()
    ensures Stale(Run(s, calls), fd)
    decreases |calls|
  {
    if calls != [] {
      assert Stale(Step(s, calls[0].0, calls[0].1).0, fd);
      StaleBlocksRegistration(Step(s, calls[0].0, calls[0].1).0, calls[1..], fd);
    }
  }

  lemma RefusedRemovalIsStale(s: Poll, c: Call)
    requires Agrees(s) && !c.IsRegister() && Installed(s, c)
    requires c.fd !in (if c.IsRead() then s.writers else s.readers)
    ensures Stale(Step(s, c, true).0, c.fd)
  {
    assert AgreesAt(s, c.fd);
  }

  // ---------- Dispatching a batch of events ----------

  datatype Ready = Ready(fd: int, error: bool, input: bool, output: bool)
  datatype Callback = OnInput(fd: int, handler: Handler) | OnOutput(fd: int, handler: Handler)

  /** What the k-th callback does to the poller; an absent entry does nothing. */
  type Script = seq<seq<(Call, bool)>>

  function Actions(script: Script, k: nat): seq<(Call, bool)> {
    if k < |script| then script[k] else []
  }

  function TriggerRead(s: Poll, fd: int, log: seq<Callback>, script: Script): (Poll, seq<Callback>) {
    if fd !in s.readers then (s, log)
    else (Run(s, Actions(script, |log|)), log + [OnInput(fd, s.readers[fd])])
  }

  function TriggerWrite(s: Poll, fd: int, log: seq<Callback>, script: Script): (Poll, seq<Callback>) {
    if fd !in s.writers then (s, log)
    else (Run(s, Actions(script, |log|)), log + [OnOutput(fd, s.writers[fd])])
  }

  function DispatchOne(s: Poll, e: Ready, log: seq<Callback>, script: Script): (Poll, seq<Callback>) {
    if e.error then
      if e.fd in s.readers then TriggerRead(s, e.fd, log, script) else TriggerWrite(s, e.fd, log, script)
    else
      var (s1, log1) := if e.input then TriggerRead(s, e.fd, log, script) else (s, log);
      if e.output then TriggerWrite(s1, e.fd, log1, script) else (s1, log1)
  }

  function Dispatch(s: Poll, events: seq<Ready>, log: seq<Callback>, script: Script): (Poll, seq<Callback>)
    decreases |events|
  {
    if events == [] then (s, log)
    else
      var (s1, log1) := DispatchOne(s, events[0], log, script);
      Dispatch(s1, events[1..], log1, script)
  }

  /** Handlers stay covered through a batch, whatever the callbacks do. */
  lemma {:induction false} DispatchKeepsCovered(s: Poll, events: seq<Ready>, log: seq<Callback>, script: Script)
    requires Covered(s)
    ensures Covered(Dispatch(s, events, log, script).0)
    decreases |events|
  {
    if events != [] {
      var e := events[0];
      RunCovered(s, Actions(script, |log|));
      var (s1, log1) := if !e.error && e.input then TriggerRead(s, e.fd, log, script) else (s, log);
      RunCovered(s1, Actions(script, |log1|));
      var (s2, log2) := DispatchOne(s, e, log, script);
      DispatchKeepsCovered(s2, events[1..], log2, script);
    }
  }

  /** What an event report may contain: only interest the kernel was asked for, except that
      error conditions are always reported for a watched descriptor. */
  ghost predicate Truthful(s: Poll, e: Ready) {
    && e.fd in s.kernel
    && (e.input ==> s.kernel[e.fd].input)
    && (e.output ==> s.kernel[e.fd].output)
  }

  /** The callbacks one event deserves when handlers leave the poller alone. */
  ghost function Deserved(s: Poll, e: Ready): seq<Callback>
    requires Agrees(s) && Truthful(s, e)
  {
    assert AgreesAt(s, e.fd);
    if e.error then
      [if s.kernel[e.fd].input then OnInput(e.fd, s.readers[e.fd]) else OnOutput(e.fd, s.writers[e.fd])]
    else
      (if e.input then [OnInput(e.fd, s.readers[e.fd])] else []) +
      (if e.output then [OnOutput(e.fd, s.writers[e.fd])] else [])
  }

  ghost function AllDeserved(s: Poll, events: seq<Ready>): seq<Callback>
    requires Agrees(s) && forall k :: 0 <= k < |events| ==> Truthful(s, events[k])
  {
    if events == [] then [] else Deserved(s, events[0]) + AllDeserved(s, events[1..])
  }

  lemma DispatchOneDeserved(s: Poll, e: Ready, log: seq<Callback>)
    requires Agrees(s) && Truthful(s, e)
    ensures DispatchOne(s, e, log, []) == (s, log + Deserved(s, e))
  {
    assert AgreesAt(s, e.fd);
    if !e.error {
      var log1 := if e.input then log + [OnInput(e.fd, s.readers[e.fd])] else log;
      var log2 := if e.output then log1 + [OnOutput(e.fd, s.writers[e.fd])] else log1;
      assert log2 == log + Deserved(s, e);
    }
  }

  /** As long as callbacks leave the poller alone, the batch is handed over event by event: each one
      reaches its handlers, and an error exactly one, the reader if there is one. */
  lemma {:induction false} QuietBatch(s: Poll, events: seq<Ready>, log: seq<Callback>)
    requires Agrees(s) && forall k :: 0 <= k < |events| ==> Truthful(s, events[k])
    ensures Dispatch(s, events, log, []) == (s, log + AllDeserved(s, events))
    decreases |events|
  {
    if events == [] {
      assert log + [] == log;
    } else {
      DispatchOneDeserved(s, events[0], log);
      ghost var one, rest := Deserved(s, events[0]), AllDeserved(s, events[1..]);
      calc {
        Dispatch(s, events, log, []);
        Dispatch(s, events[1..], log + one, []);
        { QuietBatch(s, events[1..], log + one); }
        (s, log + one + rest);
        { assert log + one + rest == log + (one + rest); }
        (s, log + (one + rest));
      }
    }
  }

  // ---------- Batches whose callbacks edit the poller ----------

  /** What the callbacks numbered `n` up to `m` do to the poller. */
  function Performed(script: Script, n: nat, m: nat): seq<(Call, bool)>
    decreases m
  {
    if m <= n then [] else Performed(script, n, m - 1) + if m <= |script| then script[m - 1] else []
  }

  lemma {:induction false} PerformedOne(s: Poll, script: Script, n: nat, m: nat)
    requires n <= m
    ensures Run(s, Performed(script, n, m + 1)) == Run(Run(s, Performed(script, n, m)), Actions(script, m))
  {
    RunJoin(s, Performed(script, n, m), Actions(script, m));
  }

  /** The poller has come from `s0` by the calls of the callbacks logged since `n`. */
  ghost predicate Came(s0: Poll, n: nat, s: Poll, log: seq<Callback>, script: Script) {
    n <= |log| && s == Run(s0, Performed(script, n, |log|))
  }

  lemma {:induction false} TriggerCame(s0: Poll, n: nat, s: Poll, fd: int, log: seq<Callback>, script: Script)
    requires Came(s0, n, s, log, script)
    ensures var (s1, log1) := TriggerRead(s, fd, log, script);
            Came(s0, n, s1, log1, script) && log <= log1
    ensures var (s1, log1) := TriggerWrite(s, fd, log, script);
            Came(s0, n, s1, log1, script) && log <= log1
  {
    PerformedOne(s0, script, n, |log|);
  }

  lemma {:induction false} DispatchOneCame(s0: Poll, n: nat, s: Poll, e: Ready, log: seq<Callback>, script: Script)
    requires Came(s0, n, s, log, script)
    ensures var (s1, log1) := DispatchOne(s, e, log, script);
            Came(s0, n, s1, log1, script) && log <= log1
  {
    TriggerCame(s0, n, s, e.fd, log, script);
    if !e.error && e.input {
      var (s1, log1) := TriggerRead(s, e.fd, log, script);
      TriggerCame(s0, n, s1, e.fd, log1, script);
    }
  }

  lemma {:induction false} DispatchCame(s0: Poll, n: nat, s: Poll, events: seq<Ready>, log: seq<Callback>,
                                        script: Script)
    requires Came(s0, n, s, log, script)
    ensures var (s1, log1) := Dispatch(s, events, log, script);
            Came(s0, n, s1, log1, script) && log <= log1
    decreases |events|
  {
    if events != [] {
      DispatchOneCame(s0, n, s, events[0], log, script);
      var (s1, log1) := DispatchOne(s, events[0], log, script);
      DispatchCame(s0, n, s1, events[1..], log1, script);
    }
  }

  /** A batch goes through each of its events. */
  lemma {:induction false} DispatchSplit(s: Poll, events: seq<Ready>, i: nat, log: seq<Callback>, script: Script)
    requires i < |events|
    ensures var (s1, log1) := Dispatch(s, events[..i], log, script);
            var (s2, log2) := DispatchOne(s1, events[i], log1, script);
            Dispatch(s, events, log, script) == Dispatch(s2, events[i + 1..], log2, script)
    decreases i
  {
    if i > 0 {
      var (s1, log1) := DispatchOne(s, events[0], log, script);
      assert events[1..][..i - 1] == events[..i][1..] && events[1..][i..] == events[i + 1..];
      assert events[..i][0] == events[0];
      DispatchSplit(s1, events[1..], i - 1, log1, script);
    }
  }

  predicate Has(s: Poll, fd: int, isRead: bool) {
    fd in if isRead then s.readers else s.writers
  }

  predicate Concerns(c: Call, fd: int, isRead: bool) {
    c.fd == fd && c.IsRead() == isRead
  }

  /** The k-th call installs a handler: it registers, and the kernel agrees. */
  ghost predicate Installs(s: Poll, calls: seq<(Call, bool)>, fd: int, isRead: bool, k: nat)
    requires k < |calls|
  {
    && Concerns(calls[k].0, fd, isRead) && calls[k].0.IsRegister()
    && Step(Run(s, calls[..k]), calls[k].0, calls[k].1).1
  }

  ghost predicate RemovedFrom(calls: seq<(Call, bool)>, fd: int, isRead: bool, n: nat) {
    exists k :: n <= k < |calls| && Concerns(calls[k].0, fd, isRead) && !calls[k].0.IsRegister()
  }

  /** Some later call installs a handler in its place. */
  ghost predicate InstalledFrom(s: Poll, calls: seq<(Call, bool)>, fd: int, isRead: bool, n: nat) {
    exists k :: n <= k < |calls| && Installs(s, calls, fd, isRead, k)
  }

  /** Nothing from the n-th call on removes or replaces the handler. */
  ghost predicate LeftAlone(s: Poll, calls: seq<(Call, bool)>, fd: int, isRead: bool, n: nat) {
    !RemovedFrom(calls, fd, isRead, n) && !InstalledFrom(s, calls, fd, isRead, n)
  }

  /** Which handler is there after the calls, told from the calls: the one that the last granted
      registration passed, or that was there at the start, if none after that removed it. */
  ghost predicate StaysAs(s: Poll, calls: seq<(Call, bool)>, fd: int, isRead: bool, h: Handler) {
    || (HandlerOf(s, fd, isRead) == Some(h) && LeftAlone(s, calls, fd, isRead, 0))
    || exists k :: 0 <= k < |calls| && Installs(s, calls, fd, isRead, k) && calls[k].0.handler == h &&
                   LeftAlone(s, calls, fd, isRead, k + 1)
  }

  function HandlerOf(s: Poll, fd: int, isRead: bool): Option<Handler> {
    if isRead then (if fd in s.readers then Some(s.readers[fd]) else None)
    else (if fd in s.writers then Some(s.writers[fd]) else None)
  }

  lemma {:induction false} InstallsBefore(s: Poll, calls: seq<(Call, bool)>, c: (Call, bool), fd: int, isRead: bool,
                                          k: nat)
    requires k < |calls|
    ensures Installs(s, calls + [c], fd, isRead, k) == Installs(s, calls, fd, isRead, k)
  {
    assert (calls + [c])[..k] == calls[..k];
  }

  lemma {:induction false} RemovedOneMore(calls: seq<(Call, bool)>, c: (Call, bool), fd: int, isRead: bool, n: nat)
    requires n <= |calls|
    ensures RemovedFrom(calls + [c], fd, isRead, n) <==>
              RemovedFrom(calls, fd, isRead, n) || (Concerns(c.0, fd, isRead) && !c.0.IsRegister())
  {
    var all := calls + [c];
    if RemovedFrom(calls, fd, isRead, n) {
      var k :| n <= k < |calls| && Concerns(calls[k].0, fd, isRead) && !calls[k].0.IsRegister();
      assert all[k] == calls[k];
    }
    assert all[|calls|] == c;
    if RemovedFrom(all, fd, isRead, n) {
      var k :| n <= k < |all| && Concerns(all[k].0, fd, isRead) && !all[k].0.IsRegister();
      assert k < |calls| ==> all[k] == calls[k];
    }
  }

  lemma {:induction false} InstalledOneMore(s: Poll, calls: seq<(Call, bool)>, c: (Call, bool), fd: int, isRead: bool,
                                            n: nat)
    requires n <= |calls|
    ensures InstalledFrom(s, calls + [c], fd, isRead, n) <==>
              InstalledFrom(s, calls, fd, isRead, n) || Installs(s, calls + [c], fd, isRead, |calls|)
  {
    var all := calls + [c];
    if InstalledFrom(s, calls, fd, isRead, n) {
      var k :| n <= k < |calls| && Installs(s, calls, fd, isRead, k);
      InstallsBefore(s, calls, c, fd, isRead, k);
      assert Installs(s, all, fd, isRead, k);
    }
    if InstalledFrom(s, all, fd, isRead, n) {
      var k :| n <= k < |all| && Installs(s, all, fd, isRead, k);
      if k < |calls| {
        InstallsBefore(s, calls, c, fd, isRead, k);
      }
    }
  }

  lemma {:induction false} LeftAloneOneMore(s: Poll, calls: seq<(Call, bool)>, c: (Call, bool), fd: int, isRead: bool,
                                            n: nat)
    requires n <= |calls|
    ensures LeftAlone(s, calls + [c], fd, isRead, n) <==>
              && LeftAlone(s, calls, fd, isRead, n)
              && !(Concerns(c.0, fd, isRead) && !c.0.IsRegister()) && !Installs(s, calls + [c], fd, isRead, |calls|)
  {
    RemovedOneMore(calls, c, fd, isRead, n);
    InstalledOneMore(s, calls, c, fd, isRead, n);
  }

  /** One call more: it installs its own handler, or removes, or leaves what was there. */
  lemma {:induction false} StaysOneMore(s: Poll, calls: seq<(Call, bool)>, c: (Call, bool), fd: int, isRead: bool,
                                        h: Handler)
    ensures var all := calls + [c];
            StaysAs(s, all, fd, isRead, h) <==>
              if Installs(s, all, fd, isRead, |calls|) then c.0.handler == h
              else StaysAs(s, calls, fd, isRead, h) && !(Concerns(c.0, fd, isRead) && !c.0.IsRegister())
  {
    var all := calls + [c];
    LeftAloneOneMore(s, calls, c, fd, isRead, 0);
    forall k | 0 <= k < |calls|
      ensures Installs(s, all, fd, isRead, k) == Installs(s, calls, fd, isRead, k) && all[k] == calls[k]
    {
      InstallsBefore(s, calls, c, fd, isRead, k);
    }
    if StaysAs(s, all, fd, isRead, h) && !(HandlerOf(s, fd, isRead) == Some(h) && LeftAlone(s, all, fd, isRead, 0)) {
      var k :| 0 <= k < |all| && Installs(s, all, fd, isRead, k) && all[k].0.handler == h &&
               LeftAlone(s, all, fd, isRead, k + 1);
      if k < |calls| {
        LeftAloneOneMore(s, calls, c, fd, isRead, k + 1);
        assert Installs(s, calls, fd, isRead, k);
      }
    }
    StaysStill(s, calls, c, fd, isRead, h);
    if Installs(s, all, fd, isRead, |calls|) && c.0.handler == h {
      assert all[|calls|] == c && LeftAlone(s, all, fd, isRead, |calls| + 1);
    }
  }

  lemma {:induction false} StaysStill(s: Poll, calls: seq<(Call, bool)>, c: (Call, bool), fd: int, isRead: bool,
                                      h: Handler)
    ensures var all := calls + [c];
            !Installs(s, all, fd, isRead, |calls|) && !(Concerns(c.0, fd, isRead) && !c.0.IsRegister()) ==>
              (StaysAs(s, calls, fd, isRead, h) ==> StaysAs(s, all, fd, isRead, h))
  {
    var all := calls + [c];
    LeftAloneOneMore(s, calls, c, fd, isRead, 0);
    if StaysAs(s, calls, fd, isRead, h) && !(HandlerOf(s, fd, isRead) == Some(h) &&
      LeftAlone(s, calls, fd, isRead, 0)) {
      var k :| 0 <= k < |calls| && Installs(s, calls, fd, isRead, k) && calls[k].0.handler == h &&
               LeftAlone(s, calls, fd, isRead, k + 1);
      InstallsBefore(s, calls, c, fd, isRead, k);
      LeftAloneOneMore(s, calls, c, fd, isRead, k + 1);
      assert all[k] == calls[k];
    }
  }

  lemma {:induction false} StepHandler(s: Poll, c: Call, refused: bool, fd: int, isRead: bool)
    ensures var (s', ok) := Step(s, c, refused);
            HandlerOf(s', fd, isRead) ==
              if !Concerns(c, fd, isRead) then HandlerOf(s, fd, isRead)
              else if !c.IsRegister() then None
              else if ok then Some(c.handler) else HandlerOf(s, fd, isRead)
  {
  }

  /** After any run of calls, with any refusals, the handler of a descriptor and direction is told by
      the calls alone. */
  lemma {:induction false} HandlerIff(s: Poll, calls: seq<(Call, bool)>, fd: int, isRead: bool, h: Handler)
    ensures HandlerOf(Run(s, calls), fd, isRead) == Some(h) <==> StaysAs(s, calls, fd, isRead, h)
    decreases |calls|
  {
    if calls != [] {
      var front, c := calls[..|calls| - 1], calls[|calls| - 1];
      assert front + [c] == calls && calls[..|front|] == front;
      HandlerIff(s, front, fd, isRead, h);
      RunOneMore(s, front, c);
      StepHandler(Run(s, front), c.0, c.1, fd, isRead);
      StaysOneMore(s, front, c, fd, isRead, h);
      assert calls[|front|] == c;
    }
  }

  /** Some handler is there. */
  ghost predicate Stays(s: Poll, calls: seq<(Call, bool)>, fd: int, isRead: bool) {
    exists h: Handler :: StaysAs(s, calls, fd, isRead, h)
  }

  lemma {:induction false} StaysIff(s: Poll, calls: seq<(Call, bool)>, fd: int, isRead: bool)
    ensures Has(Run(s, calls), fd, isRead) <==> Stays(s, calls, fd, isRead)
  {
    var there := HandlerOf(Run(s, calls), fd, isRead);
    if there.Some? {
      HandlerIff(s, calls, fd, isRead, there.value);
    }
    if Stays(s, calls, fd, isRead) {
      var h: Handler :| StaysAs(s, calls, fd, isRead, h);
      HandlerIff(s, calls, fd, isRead, h);
    }
  }

  function CallbackOf(fd: int, isRead: bool, h: Handler): Callback {
    if isRead then OnInput(fd, h) else OnOutput(fd, h)
  }

  /** Between two logs the handler is called, for input or for output of the descriptor. */
  ghost predicate HandedTo(log1: seq<Callback>, log2: seq<Callback>, fd: int, isRead: bool, h: Handler) {
    exists k :: |log1| <= k < |log2| && log2[k] == CallbackOf(fd, isRead, h)
  }

  /** Between two logs there are so many input callbacks, then so many output callbacks. */
  ghost predicate InTurn(log1: seq<Callback>, log2: seq<Callback>, inputs: nat, outputs: nat) {
    && |log2| == |log1| + inputs + outputs
    && forall k :: |log1| <= k < |log2| ==> (log2[k].OnInput? <==> k < |log1| + inputs)
  }

  /** One event: an input reaches the reader that is there when it comes up, an output the writer that
      is there after the input's callback, an error the reader or else the writer. */
  lemma {:induction false} DispatchOneReaches(s: Poll, e: Ready, log: seq<Callback>, script: Script, h: Handler)
    ensures var log2 := DispatchOne(s, e, log, script).1;
            var (s1, log1) := if !e.error && e.input then TriggerRead(s, e.fd, log, script) else (s, log);
            && (HandedTo(log, log2, e.fd, true, h) <==>
                  (e.error || e.input) && HandlerOf(s, e.fd, true) == Some(h))
            && (HandedTo(log, log2, e.fd, false, h) <==>
                  if e.error then !Has(s, e.fd, true) && HandlerOf(s, e.fd, false) == Some(h)
                  else e.output && HandlerOf(s1, e.fd, false) == Some(h))
            && InTurn(log, log2, if (e.error || e.input) && Has(s, e.fd, true) then 1 else 0,
                      if e.error then (if !Has(s, e.fd, true) && Has(s, e.fd, false) then 1 else 0)
                      else if e.output && Has(s1, e.fd, false) then 1 else 0)
  {
    var log2 := DispatchOne(s, e, log, script).1;
    var (s1, log1) := if !e.error && e.input then TriggerRead(s, e.fd, log, script) else (s, log);
    if (e.error || e.input) && Has(s, e.fd, true) {
      assert log2[|log|] == OnInput(e.fd, s.readers[e.fd]);
    }
    if e.error && !Has(s, e.fd, true) && Has(s, e.fd, false) {
      assert log2[|log|] == OnOutput(e.fd, s.writers[e.fd]);
    }
    if !e.error && e.output && Has(s1, e.fd, false) {
      assert log2[|log1|] == OnOutput(e.fd, s1.writers[e.fd]);
    }
  }

  /** Over every batch and every script, each event calls a handler exactly when it is the one that the
      last granted registration before it passed, or that was there at the start of the batch, and no
      callback after that removed it.  An error calls the reader, or else the writer; each is called
      once, for input before output. */
  lemma {:induction false} DispatchLosesNothing(s: Poll, events: seq<Ready>, i: nat, log: seq<Callback>, script: Script,
                                                h: Handler)
    requires i < |events|
    ensures var e := events[i];
            var (s1, log1) := Dispatch(s, events[..i], log, script);
            var log2 := DispatchOne(s1, e, log1, script).1;
            var logm := if !e.error && e.input then TriggerRead(s1, e.fd, log1, script).1 else log1;
            var calls, callsm := Performed(script, |log|, |log1|), Performed(script, |log|, |logm|);
            && log1 <= log2 <= Dispatch(s, events, log, script).1
            && (HandedTo(log1, log2, e.fd, true, h) <==> (e.error || e.input) && StaysAs(s, calls, e.fd, true, h))
            && (HandedTo(log1, log2, e.fd, false, h) <==>
                  if e.error then !Stays(s, calls, e.fd, true) && StaysAs(s, calls, e.fd, false, h)
                  else e.output && StaysAs(s, callsm, e.fd, false, h))
            && InTurn(log1, log2, if (e.error || e.input) && Stays(s, calls, e.fd, true) then 1 else 0,
                      if e.error then (if !Stays(s, calls, e.fd, true) && Stays(s, calls, e.fd, false) then 1 else 0)
                      else if e.output && Stays(s, callsm, e.fd, false) then 1 else 0)
  {
    var e := events[i];
    assert Came(s, |log|, s, log, script);
    DispatchCame(s, |log|, s, events[..i], log, script);
    var (s1, log1) := Dispatch(s, events[..i], log, script);
    DispatchOneCame(s, |log|, s1, e, log1, script);
    var (s2, log2) := DispatchOne(s1, e, log1, script);
    DispatchSplit(s, events, i, log, script);
    DispatchCame(s, |log|, s2, events[i + 1..], log2, script);
    TriggerCame(s, |log|, s1, e.fd, log1, script);
    DispatchOneReaches(s1, e, log1, script, h);
    var logm := if !e.error && e.input then TriggerRead(s1, e.fd, log1, script).1 else log1;
    HandlerIff(s, Performed(script, |log|, |log1|), e.fd, true, h);
    StaysIff(s, Performed(script, |log|, |log1|), e.fd, true);
    HandlerIff(s, Performed(script, |log|, |log1|), e.fd, false, h);
    HandlerIff(s, Performed(script, |log|, |logm|), e.fd, false, h);
    StaysIff(s, Performed(script, |log|, |log1|), e.fd, false);
    StaysIff(s, Performed(script, |log|, |logm|), e.fd, false);
  }

  /** Once its handlers are gone, a descriptor's later events in the same batch reach nobody. */
  lemma {:induction false} NoCallbackAfterRemoval(s: Poll, events: seq<Ready>, log: seq<Callback>, script: Script,
                                                  fd: int)
    requires fd !in s.readers && fd !in s.writers
    requires forall k, i :: 0 <= k < |script| && 0 <= i < |script[k]| && script[k][i].0.fd == fd ==>
             !script[k][i].0.IsRegister()
    ensures log <= Dispatch(s, events, log, script).1
    ensures forall k :: |log| <= k < |Dispatch(s, events, log, script).1| ==>
            Dispatch(s, events, log, script).1[k].fd != fd
    decreases |events|
  {
    if events != [] {
      var e := events[0];
      RunInstallsNothing(s, Actions(script, |log|), fd);
      var (s1, log1) := if !e.error && e.input then TriggerRead(s, e.fd, log, script) else (s, log);
      RunInstallsNothing(s1, Actions(script, |log1|), fd);
      var (s2, log2) := DispatchOne(s, e, log, script);
      NoCallbackAfterRemoval(s2, events[1..], log2, script, fd);
    }
  }

  lemma {:induction false} RunInstallsNothing(s: Poll, calls: seq<(Call, bool)>, fd: int)
    requires fd !in s.readers && fd !in s.writers
    requires forall i :: 0 <= i < |calls| && calls[i].0.fd == fd ==> !calls[i].0.IsRegister()
    ensures fd !in Run(s, calls).readers && fd !in Run(s, calls).writers
    decreases |calls|
  {
    if calls != [] {
      RunInstallsNothing(Step(s, calls[0].0, calls[0].1).0, calls[1..], fd);
    }
  }
}
