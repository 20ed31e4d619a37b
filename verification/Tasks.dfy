/** The task list: a pass calls every task once and keeps those that ask to stay. */
module Tasks {

  /** Tasks are told apart by identity; one task may be listed more than once. */
  type Task = nat

  /** The answer of the k-th call of a pass: whether the task stays. */
  type Answers = nat -> bool

  /** The pass as a pure filter. */
  function Kept(tasks: seq<Task>, answers: Answers, k: nat): seq<Task> {
    if tasks == [] then [] else (if answers(k) then [tasks[0]] else []) + Kept(tasks[1..], answers, k + 1)
  }

  /** `xs` is `ys` with some elements left out. */
  ghost predicate Subsequence<T>(xs: seq<T>, ys: seq<T>) {
    if xs == [] then true
    else if ys == [] then false
    else Subsequence(xs, ys[1..]) || (xs[0] == ys[0] && Subsequence(xs[1..], ys[1..]))
  }

  function IndexOf(tasks: seq<Task>, t: Task): (i: nat)
    requires t in tasks
    ensures i < |tasks| && tasks[i] == t && t !in tasks[..i]
  {
    if tasks[0] == t then 0 else 1 + IndexOf(tasks[1..], t)
  }

  lemma {:induction false} IndexOfUnique(tasks: seq<Task>, t: Task, i: nat)
    requires i < |tasks| && tasks[i] == t && t !in tasks[..i]
    ensures i == IndexOf(tasks, t)
  {
    if i > 0 {
      assert tasks[0] == tasks[..i][0] != t;
      assert tasks[1..][..i - 1] == tasks[..i][1..];
      IndexOfUnique(tasks[1..], t, i - 1);
    }
  }

  datatype Op = Add(task: Task) | Cancel(task: Task) | Process(answers: Answers)

  function Apply(tasks: seq<Task>, op: Op): seq<Task> {
    match op
    case Add(t) => tasks + [t]
    case Cancel(t) => if t in tasks then tasks[..IndexOf(tasks, t)] + tasks[IndexOf(tasks, t) + 1..] else tasks
    case Process(answers) => Kept(tasks, answers, 0)
  }

  function Run(tasks: seq<Task>, ops: seq<Op>): seq<Task>
    decreases |ops|
  {
    if ops == [] then tasks else Run(Apply(tasks, ops[0]), ops[1..])
  }

  function Added(ops: seq<Op>): seq<Task> {
    if ops == [] then [] else (if ops[0].Add? then [ops[0].task] else []) + Added(ops[1..])
  }

  lemma {:induction false} SubsequenceSelf<T>(xs: seq<T>)
    ensures Subsequence(xs, xs)
  {
    if xs != [] {
      SubsequenceSelf(xs[1..]);
    }
  }

  lemma {:induction false} SubsequenceTrans<T>(xs: seq<T>, ys: seq<T>, zs: seq<T>)
    requires Subsequence(xs, ys) && Subsequence(ys, zs)
    ensures Subsequence(xs, zs)
    decreases |zs|
  {
    if xs != [] {
      if Subsequence(ys, zs[1..]) {
        SubsequenceTrans(xs, ys, zs[1..]);
      } else if Subsequence(xs, ys[1..]) {
        SubsequenceTrans(xs, ys[1..], zs[1..]);
      } else {
        SubsequenceTrans(xs[1..], ys[1..], zs[1..]);
      }
    }
  }

  lemma {:induction false} SubsequenceAppend<T>(xs: seq<T>, ys: seq<T>, tail: seq<T>)
    requires Subsequence(xs, ys)
    ensures Subsequence(xs + tail, ys + tail)
    decreases |ys|
  {
    if ys == [] {
      assert xs + tail == tail && ys + tail == tail;
      SubsequenceSelf(tail);
    } else {
      assert (ys + tail)[1..] == ys[1..] + tail;
      if Subsequence(xs, ys[1..]) {
        SubsequenceAppend(xs, ys[1..], tail);
      } else {
        SubsequenceAppend(xs[1..], ys[1..], tail);
        assert (xs + tail)[1..] == xs[1..] + tail;
      }
    }
  }

  lemma {:induction false} SubsequenceDrop<T>(xs: seq<T>, i: nat)
    requires i < |xs|
    ensures Subsequence(xs[..i] + xs[i + 1..], xs)
    decreases i
  {
    if i == 0 {
      assert xs[..0] + xs[1..] == xs[1..];
      SubsequenceSelf(xs[1..]);
    } else {
      var less := xs[..i] + xs[i + 1..];
      SubsequenceDrop(xs[1..], i - 1);
      assert less[1..] == xs[1..][..i - 1] + xs[1..][i..];
    }
  }

  lemma {:induction false} KeptIsSubsequence(tasks: seq<Task>, answers: Answers, k: nat)
    ensures Subsequence(Kept(tasks, answers, k), tasks)
    decreases |tasks|
  {
    if tasks != [] {
      KeptIsSubsequence(tasks[1..], answers, k + 1);
      var rest := Kept(tasks[1..], answers, k + 1);
      assert [] + rest == rest && ([tasks[0]] + rest)[1..] == rest;
    }
  }

  /** A task is kept at its place exactly when its own call answered so. */
  lemma {:induction false} KeptExact(tasks: seq<Task>, answers: Answers, k: nat, i: nat)
    requires i < |tasks|
    ensures Kept(tasks, answers, k) ==
            Kept(tasks[..i], answers, k) + (if answers(k + i) then [tasks[i]] else [])
              + Kept(tasks[i + 1..], answers, k + i + 1)
    decreases i
  {
    if i == 0 {
      assert Kept(tasks[..0], answers, k) == [];
    } else {
      KeptExact(tasks[1..], answers, k + 1, i - 1);
      assert tasks[..i][1..] == tasks[1..][..i - 1];
      assert tasks[1..][i..] == tasks[i + 1..];
      Assoc4(if answers(k) then [tasks[0]] else [], Kept(tasks[..i][1..], answers, k + 1),
             if answers(k + i) then [tasks[i]] else [], Kept(tasks[i + 1..], answers, k + i + 1));
    }
  }

  lemma Assoc4(a: seq<Task>, b: seq<Task>, c: seq<Task>, d: seq<Task>)
    ensures a + (b + c + d) == a + b + c + d
  {
  }

  /** Cancelling and processing only leave tasks out. */
  lemma ApplyShrinks(tasks: seq<Task>, op: Op)
    requires !op.Add?
    ensures Subsequence(Apply(tasks, op), tasks)
  {
    match op
    case Cancel(t) =>
      if t in tasks {
        SubsequenceDrop(tasks, IndexOf(tasks, t));
      } else {
        SubsequenceSelf(tasks);
      }
    case Process(answers) => KeptIsSubsequence(tasks, answers, 0);
  }

  lemma AddAssoc(tasks: seq<Task>, t: Task, tail: seq<Task>)
    ensures tasks + [t] + tail == tasks + ([t] + tail) && [] + tail == tail
  {
  }

  /** Over any run of additions, first-occurrence cancellations and passes, what remains is in
      the order in which it was added. */
  lemma {:induction false} OrderKept(tasks: seq<Task>, ops: seq<Op>)
    ensures Subsequence(Run(tasks, ops), tasks + Added(ops))
    decreases |ops|
  {
    if ops == [] {
      assert tasks + [] == tasks;
      SubsequenceSelf(tasks);
    } else {
      var op, tail := ops[0], Added(ops[1..]);
      var next := Apply(tasks, op);
      var end := Run(next, ops[1..]);
      OrderKept(next, ops[1..]);
      AddAssoc(tasks, if op.Add? then op.task else 0, tail);
      if !op.Add? {
        ApplyShrinks(tasks, op);
        SubsequenceAppend(next, tasks, tail);
        SubsequenceTrans(end, next + tail, tasks + tail);
      }
    }
  }

  /** Cancelling takes out the first occurrence, and only that. */
  lemma {:induction false} CancelExact(tasks: seq<Task>, t: Task, i: nat)
    requires i < |tasks| && tasks[i] == t && t !in tasks[..i]
    ensures Apply(tasks, Op.Cancel(t)) == tasks[..i] + tasks[i + 1..]
  {
    IndexOfUnique(tasks, t, i);
  }

  /** The tasks a pass drops. */
  function Dropped(tasks: seq<Task>, answers: Answers, k: nat): multiset<Task> {
    if tasks == [] then multiset{}
    else (if answers(k) then multiset{} else multiset{tasks[0]}) + Dropped(tasks[1..], answers, k + 1)
  }

  /** What an operation takes out: a cancellation one occurrence, if there is one, and a pass those
      tasks whose own call answered so. */
  function Takes(tasks: seq<Task>, op: Op): multiset<Task> {
    match op
    case Add(_) => multiset{}
    case Cancel(t) => if t in tasks then multiset{t} else multiset{}
    case Process(answers) => Dropped(tasks, answers, 0)
  }

  function TakenOut(tasks: seq<Task>, ops: seq<Op>): multiset<Task>
    decreases |ops|
  {
    if ops == [] then multiset{} else Takes(tasks, ops[0]) + TakenOut(Apply(tasks, ops[0]), ops[1..])
  }

  lemma {:induction false} KeptAndDropped(tasks: seq<Task>, answers: Answers, k: nat)
    ensures multiset(Kept(tasks, answers, k)) + Dropped(tasks, answers, k) == multiset(tasks)
    decreases |tasks|
  {
    if tasks != [] {
      KeptAndDropped(tasks[1..], answers, k + 1);
      assert tasks == [tasks[0]] + tasks[1..];
    }
  }

  lemma {:induction false} ApplyAccounts(tasks: seq<Task>, op: Op)
    ensures multiset(Apply(tasks, op)) + Takes(tasks, op)
            == multiset(tasks) + if op.Add? then multiset{op.task} else multiset{}
  {
    match op
    case Add(t) =>
    case Cancel(t) =>
      if t in tasks {
        var i := IndexOf(tasks, t);
        assert tasks == tasks[..i] + [t] + tasks[i + 1..];
      }
    case Process(answers) => KeptAndDropped(tasks, answers, 0);
  }

  lemma {:induction false} Accounts(left: multiset<Task>, taken: multiset<Task>, next: multiset<Task>,
                                    added: multiset<Task>, took: multiset<Task>, was: multiset<Task>,
                                      add: multiset<Task>)
    requires left + taken == next + added && next + took == was + add
    ensures left + (took + taken) == was + (add + added)
  {
    forall x | x in left + (took + taken) || x in was + (add + added)
      ensures (left + (took + taken))[x] == (was + (add + added))[x]
    {
      assert (left + taken)[x] == (next + added)[x];
      assert (next + took)[x] == (was + add)[x];
    }
  }

  lemma {:induction false} AddedFirst(ops: seq<Op>)
    requires ops != []
    ensures multiset(Added(ops))
            == (if ops[0].Add? then multiset{ops[0].task} else multiset{}) + multiset(Added(ops[1..]))
  {
  }

  /** Over any run what remains and what was taken out is what there was and what was added: no task
      is lost, kept too long, or doubled. */
  lemma {:induction false} RunAccounts(tasks: seq<Task>, ops: seq<Op>)
    ensures multiset(Run(tasks, ops)) + TakenOut(tasks, ops) == multiset(tasks) + multiset(Added(ops))
    decreases |ops|
  {
    if ops != [] {
      var op, next := ops[0], Apply(tasks, ops[0]);
      RunAccounts(next, ops[1..]);
      ApplyAccounts(tasks, op);
      AddedFirst(ops);
      Accounts(multiset(Run(next, ops[1..])), TakenOut(next, ops[1..]), multiset(next), multiset(Added(ops[1..])),
               Takes(tasks, op), multiset(tasks), if op.Add? then multiset{op.task} else multiset{});
    }
  }

  /** The list object. */
  class TaskList {
    var container: seq<Task>

    constructor ()
      ensures container == []
    {
      container := [];
    }

    method Add(t: Task)
      modifies this
      ensures container == Apply(old(container), Op.Add(t)) && container == old(container) + [t]
    {
      container := container + [t];
    }

    method Cancel(t: Task) returns (found: bool)
      modifies this
      ensures found == (t in old(container)) && container == Apply(old(container), Op.Cancel(t))
      ensures found ==> exists i :: 0 <= i < |old(container)| && old(container)[i] == t && t !in old(container)[..i] &&
                                    container == old(container)[..i] + old(container)[i + 1..]
    {
      var i := 0;
      while i < |container| && container[i] != t
        invariant i <= |container| && t !in container[..i]
      {
        i := i + 1;
      }
      found := i < |container|;
      if found {
        IndexOfUnique(container, t, i);
        container := container[..i] + container[i + 1..];
      }
    }

    /** One pass, erasing while iterating; `calls` lists the tasks called. */
    method Process(answers: Answers) returns (calls: seq<Task>)
      modifies this
      ensures calls == old(container) && container == Apply(old(container), Op.Process(answers))
    {
      calls := [];
      var i := 0;
      ghost var was := container;
      assert was[..0] == [] && was[0..] == was && [] + Kept(was, answers, 0) == Kept(was, answers, 0);
      while i < |container|
        invariant Visiting(was, answers, calls, container, i)
        decreases |container| - i
      {
        VisitOne(was, answers, calls, container, i);
        var t := container[i];
        var stays := answers(|calls|);
        calls := calls + [t];
        if !stays {
          container := container[..i] + container[i + 1..];
        } else {
          i := i + 1;
        }
      }
      assert container[..i] + [] == container && was[..|was|] == was;
    }
  }

  /** A pass in progress: the tasks called so far are an initial part of those there were, the ones
      behind `i` are still to be called, and those before it have stayed. */
  ghost predicate Visiting(was: seq<Task>, answers: Answers, calls: seq<Task>, container: seq<Task>, i: nat) {
    && i <= |container| && |calls| <= |was|
    && calls == was[..|calls|] && container[i..] == was[|calls|..]
    && container[..i] + Kept(container[i..], answers, |calls|) == Kept(was, answers, 0)
  }

  lemma {:induction false} VisitOne(was: seq<Task>, answers: Answers, calls: seq<Task>, container: seq<Task>, i: nat)
    requires Visiting(was, answers, calls, container, i) && i < |container|
    ensures if answers(|calls|) then Visiting(was, answers, calls + [container[i]], container, i + 1)
            else Visiting(was, answers, calls + [container[i]], container[..i] + container[i + 1..], i)
  {
    var done, t, rest := container[..i], container[i], container[i + 1..];
    assert container[i..] == [t] + rest;
    assert t == was[|calls|] && calls + [t] == was[..|calls| + 1] && rest == was[|calls| + 1..];
    var kept := Kept(rest, answers, |calls| + 1);
    assert ([t] + rest)[1..] == rest;
    if answers(|calls|) {
      assert container[..i + 1] == done + [t];
      assert done + ([t] + kept) == done + [t] + kept;
    } else {
      var less := done + rest;
      assert less[..i] == done && less[i..] == rest;
      assert [] + kept == kept;
    }
  }
}
