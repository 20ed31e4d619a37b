/** The channel table as a state machine: registration, lookup and the processing pass. */
module ChannelTable {
  import opened Wrappers
  import opened Addresses
  import opened Interruption

  datatype End = End(fd: int, address: Address)

  /** What the table needs to know of a channel.  A destroyed channel has let go of its endpoint;
      its descriptor and address are gone with it. */
  datatype Chan = Chan(channel: object, endPoint: Option<End>, condemned: bool)
  {
    predicate Destroyed() { endPoint.None? }
  }

  type Table = map<Address, Chan>

  /** Every key has an ip and is the address of its channel's endpoint, while there is one. */
  ghost predicate TableOk(t: Table) {
    forall a :: a in t ==> a.ip != 0 && (t[a].Destroyed() || t[a].endPoint.value.address == a)
  }

  ghost predicate DistinctFds(t: Table) {
    forall a, b :: a in t && b in t && !t[a].Destroyed() && !t[b].Destroyed() ==>
                     (t[a].endPoint.value.fd == t[b].endPoint.value.fd ==> a == b)
  }

  // ---------- The order of iteration ----------

  ghost predicate IsFirst(keys: set<Address>, a: Address) {
    a in keys && forall b :: b in keys && b != a ==> Less(a, b)
  }

  lemma {:induction false} FirstExists(keys: set<Address>)
    requires keys != {}
    ensures exists a :: IsFirst(keys, a)
    decreases keys
  {
    var a :| a in keys;
    if keys != {a} {
      FirstExists(keys - {a});
      var b :| IsFirst(keys - {a}, b);
      LessIsStrictTotal(a, b, b);
      var least := if Less(a, b) then a else b;
      forall c | c in keys && c != least ensures Less(least, c) {
        LessIsStrictTotal(a, b, c);
      }
      assert IsFirst(keys, least);
    } else {
      assert IsFirst(keys, a);
    }
  }

  /** The keys in the order of the map. */
  ghost function InOrder(keys: set<Address>): (order: seq<Address>)
    ensures |order| == |keys|
    decreases keys
  {
    if keys == {} then []
    else
      FirstExists(keys);
      var a :| IsFirst(keys, a);
      [a] + InOrder(keys - {a})
  }

  predicate Ascending(order: seq<Address>) {
    forall i, j :: 0 <= i < j < |order| ==> Less(order[i], order[j])
  }

  lemma InOrderUnfolds(keys: set<Address>) returns (a: Address)
    requires keys != {}
    ensures IsFirst(keys, a) && InOrder(keys) == [a] + InOrder(keys - {a})
  {
    FirstExists(keys);
    a := InOrder(keys)[0];
  }

  lemma {:induction false} InOrderHas(keys: set<Address>, b: Address)
    ensures b in InOrder(keys) <==> b in keys
    decreases keys
  {
    if keys != {} {
      var a := InOrderUnfolds(keys);
      InOrderHas(keys - {a}, b);
    }
  }

  lemma {:induction false} InOrderAscends(keys: set<Address>)
    ensures Ascending(InOrder(keys))
    decreases keys
  {
    if keys != {} {
      var a := InOrderUnfolds(keys);
      var tail := InOrder(keys - {a});
      InOrderAscends(keys - {a});
      forall j | 0 <= j < |tail| ensures Less(a, tail[j]) {
        InOrderHas(keys - {a}, tail[j]);
      }
    }
  }

  lemma InOrderComplete(keys: set<Address>)
    ensures forall a :: a in InOrder(keys) <==> a in keys
    ensures Ascending(InOrder(keys))
  {
    forall a ensures a in InOrder(keys) <==> a in keys {
      InOrderHas(keys, a);
    }
    InOrderAscends(keys);
  }

  // ---------- The processing pass ----------

  /** What a piece of foreign code does to registered channels, by address. */
  datatype Acts = Acts(condemns: set<Address>, destroys: set<Address>)

  /** One channel's visit: what the handlers of its messages do, and what becomes of the channel
      itself: the handler of one of them may destroy it (`Interruption.FateIff` says when that is in
      the middle of a packet). */
  datatype Visit = Visit(acts: Acts, own: Fate)

  type Script = map<Address, Visit>

  function VisitOf(script: Script, a: Address): Visit {
    if a in script then script[a] else Visit(Acts({}, {}), Spared)
  }

  /** What a visit does to all registered channels, its own included. */
  function ActsOf(script: Script, a: Address): Acts {
    var v := VisitOf(script, a);
    Acts(v.acts.condemns, v.acts.destroys - {a} + if v.own == Spared then {} else {a})
  }

  predicate StopsAt(script: Script, a: Address) {
    VisitOf(script, a).own == MidPacket
  }

  function Touch(c: Chan, condemn: bool, destroy: bool): Chan {
    Chan(c.channel, if destroy then None else c.endPoint, c.condemned || condemn)
  }

  function Act(t: Table, acts: Acts): (t': Table)
    ensures t'.Keys == t.Keys
  {
    map a | a in t :: Touch(t[a], a in acts.condemns, a in acts.destroys)
  }

  /** The channels a pass removed and processed, in visiting order.  It does not complete if it
      hits the assertion that a channel being deregistered still has its endpoint, or if a reader
      follows the endpoint of a channel its own handler has destroyed. */
  datatype Pass = Pass(table: Table, removed: seq<Address>, processed: seq<Address>, completed: bool)

  predicate Proper(t: Table, order: seq<Address>) {
    Ascending(order) && forall a :: a in order ==> a in t
  }

  function Process(t: Table, order: seq<Address>, script: Script): Pass
    requires Proper(t, order)
    decreases |order|
  {
    if order == [] then Pass(t, [], [], true)
    else
      var a := order[0];
      if t[a].Destroyed() then Pass(t, [], [], false)
      else if t[a].condemned then
        var p := Process(t - {a}, order[1..], script);
        p.(removed := [a] + p.removed)
      else if StopsAt(script, a) then Pass(Act(t, ActsOf(script, a)), [], [a], false)
      else
        var p := Process(Act(t, ActsOf(script, a)), order[1..], script);
        p.(processed := [a] + p.processed)
  }

  lemma ProperTail(t: Table, order: seq<Address>)
    requires Proper(t, order) && order != []
    ensures Proper(t - {order[0]}, order[1..]) && Proper(t, order[1..])
    ensures forall b :: b in order[1..] ==> Less(order[0], b) && !Less(b, order[0]) && b != order[0]
    ensures forall b :: b in order <==> b == order[0] || b in order[1..]
  {
    assert order == [order[0]] + order[1..];
  }

  // ---------- What a pass will do, from the table alone ----------

  /** A handler of a message of channel `b` condemns channel `a`. */
  predicate Condemns(script: Script, b: Address, a: Address) {
    b in script && a in script[b].acts.condemns
  }

  /** A handler of a message of channel `b` destroys channel `a`, which may be its own. */
  predicate Destroys(script: Script, b: Address, a: Address) {
    b in script && if a == b then script[b].own != Spared else a in script[b].acts.destroys
  }

  lemma {:induction false} ActsOfIs(script: Script, b: Address, a: Address)
    ensures a in ActsOf(script, b).condemns <==> Condemns(script, b, a)
    ensures a in ActsOf(script, b).destroys <==> Destroys(script, b, a)
  {
  }

  /** Condemned before the pass, or by the handlers of an earlier one of the processed channels. */
  ghost predicate Condemned(t: Table, processed: set<Address>, script: Script, a: Address)
    requires a in t
  {
    t[a].condemned || exists b :: b in processed && Less(b, a) && Condemns(script, b, a)
  }

  /** Destroyed before the pass, or by the handlers of an earlier one of the processed channels. */
  ghost predicate Destroyed(t: Table, processed: set<Address>, script: Script, a: Address)
    requires a in t
  {
    t[a].Destroyed() || exists b :: b in processed && Less(b, a) && Destroys(script, b, a)
  }

  /** The channels that a pass will process: those that none of the earlier ones condemns. */
  ghost function WouldProcess(t: Table, order: seq<Address>, script: Script): (w: set<Address>)
    requires Proper(t, order)
    ensures forall a :: a in w ==> a in order
  {
    if order == [] then {}
    else
      var front, a := order[..|order| - 1], order[|order| - 1];
      var w := WouldProcess(t, front, script);
      if Condemned(t, w, script, a) then w else w + {a}
  }

  /** Nothing is in the way of a pass. */
  ghost predicate Passable(t: Table, order: seq<Address>, script: Script, w: set<Address>)
    requires Proper(t, order)
  {
    forall a :: a in order ==>
                  !Destroyed(t, w, script, a) && (a in w && a in script ==> script[a].own != MidPacket)
  }

  lemma {:induction false} OneBehind(order: seq<Address>, a: Address)
    ensures Ascending(order + [a]) <==> Ascending(order) && forall b :: b in order ==> Less(b, a)
    ensures forall b :: b in order + [a] <==> b in order || b == a
  {
    forall b | b in order && Ascending(order + [a]) ensures Less(b, a) {
      var i :| 0 <= i < |order| && order[i] == b;
      assert (order + [a])[i] == b && (order + [a])[|order|] == a;
    }
    if Ascending(order + [a]) {
      forall i, j | 0 <= i < j < |order| ensures Less(order[i], order[j]) {
        assert (order + [a])[i] == order[i] && (order + [a])[j] == order[j];
      }
    }
  }

  lemma {:induction false} WouldProcessAppend(t: Table, order: seq<Address>, a: Address, script: Script)
    requires Proper(t, order + [a])
    ensures Proper(t, order)
    ensures var w := WouldProcess(t, order, script);
            WouldProcess(t, order + [a], script) == if Condemned(t, w, script, a) then w else w + {a}
  {
    OneBehind(order, a);
    assert (order + [a])[..|order|] == order;
  }

  /** Visiting the first channel settles what it does to the later ones. */
  lemma {:induction false} SettledByFirst(t: Table, first: Address, w: set<Address>, script: Script, a: Address)
    requires first in t && a in t && Less(first, a)
    ensures var t' := Act(t, ActsOf(script, first));
            && (Condemned(t, {first} + w, script, a) <==> Condemned(t', w, script, a))
            && (Destroyed(t, {first} + w, script, a) <==> Destroyed(t', w, script, a))
    ensures (Condemned(t, w, script, a) <==> Condemned(t - {first}, w, script, a))
    ensures (Destroyed(t, w, script, a) <==> Destroyed(t - {first}, w, script, a))
  {
    LessIsStrictTotal(first, a, a);
    ActsOfIs(script, first, a);
  }

  /** The table after the first visit of a pass that goes on. */
  function AfterFirst(t: Table, first: Address, script: Script): Table
    requires first in t
  {
    if t[first].condemned then t - {first} else Act(t, ActsOf(script, first))
  }

  function OfFirst(t: Table, first: Address): set<Address>
    requires first in t
  {
    if t[first].condemned then {} else {first}
  }

  lemma {:induction false} WouldProcessFirst(t: Table, first: Address, rest: seq<Address>, script: Script)
    requires Proper(t, [first] + rest)
    ensures Proper(AfterFirst(t, first, script), rest)
    ensures WouldProcess(t, [first] + rest, script)
            == OfFirst(t, first) + WouldProcess(AfterFirst(t, first, script), rest, script)
    decreases |rest|
  {
    ProperFirst(t, first, rest, script);
    if rest == [] {
      assert [] + [first] == [first] + rest;
      WouldProcessAppend(t, [], first, script);
    } else {
      var front, a := rest[..|rest| - 1], rest[|rest| - 1];
      var t' := AfterFirst(t, first, script);
      assert [first] + front + [a] == [first] + rest && front + [a] == rest;
      WouldProcessAppend(t, [first] + front, a, script);
      WouldProcessFirst(t, first, front, script);
      WouldProcessAppend(t', front, a, script);
      var w := WouldProcess(t', front, script);
      assert Less(first, a) by {
        OneBehind([first] + front, a);
      }
      SettledByFirst(t, first, w, script, a);
      SetSteps(OfFirst(t, first), w, a);
    }
  }

  lemma {:induction false} SetSteps(a: set<Address>, w: set<Address>, x: Address)
    ensures a + w + {x} == a + (w + {x}) && {} + w == w
  {
  }

  lemma {:induction false} ProperFirst(t: Table, first: Address, rest: seq<Address>, script: Script)
    requires Proper(t, [first] + rest)
    ensures Proper(AfterFirst(t, first, script), rest)
  {
    ProperTail(t, [first] + rest);
    assert ([first] + rest)[1..] == rest;
  }

  lemma {:induction false} PassableFirst(t: Table, first: Address, rest: seq<Address>, script: Script, w: set<Address>)
    requires Proper(t, [first] + rest) && Proper(AfterFirst(t, first, script), rest)
    requires forall a :: a in w ==> a in rest
    ensures Passable(t, [first] + rest, script, OfFirst(t, first) + w) <==>
              && !t[first].Destroyed() && (t[first].condemned || !StopsAt(script, first))
              && Passable(AfterFirst(t, first, script), rest, script, w)
  {
    var all, w', t' := [first] + rest, OfFirst(t, first) + w, AfterFirst(t, first, script);
    ProperTail(t, all);
    assert all[1..] == rest;
    assert forall b :: b in w' ==> !Less(b, first);
    assert first in all && (first in w' <==> !t[first].condemned);
    forall a | a in rest ensures Destroyed(t, w', script, a) <==> Destroyed(t', w, script, a) {
      SettledByFirst(t, first, w, script, a);
    }
  }

  /** A pass completes exactly when no channel is destroyed by the time it is visited, and none that
      it processes is destroyed by its own handlers in the middle of a packet. */
  lemma {:induction false} CompletesIff(t: Table, order: seq<Address>, script: Script)
    requires Proper(t, order)
    ensures Process(t, order, script).completed <==> Passable(t, order, script, WouldProcess(t, order, script))
    decreases |order|
  {
    if order != [] {
      var first, rest := order[0], order[1..];
      var t' := AfterFirst(t, first, script);
      assert [first] + rest == order;
      WouldProcessFirst(t, first, rest, script);
      PassableFirst(t, first, rest, script, WouldProcess(t', rest, script));
      CompletesIff(t', rest, script);
    }
  }

  /** The channels a completed pass processed are those; they stay, and the others are removed. */
  ghost predicate Sorted(t: Table, order: seq<Address>, p: Pass, w: set<Address>) {
    && (forall a :: a in p.processed <==> a in w)
    && (forall a :: a in p.removed <==> a in order && a !in w)
    && (forall a :: a in order ==> (a in p.table <==> a in w))
    && (forall a :: a in p.table ==> a in t)
    && (forall a :: a in t && a !in order ==> a in p.table)
  }

  lemma {:induction false} SortedFirst(t: Table, first: Address, rest: seq<Address>, script: Script, q: Pass,
                                       w: set<Address>)
    requires Proper(t, [first] + rest) && Sorted(AfterFirst(t, first, script), rest, q, w)
    requires forall a :: a in w ==> a in rest
    ensures t[first].condemned ==> Sorted(t, [first] + rest, q.(removed := [first] + q.removed), w)
    ensures !t[first].condemned ==> Sorted(t, [first] + rest, q.(processed := [first] + q.processed), {first} + w)
  {
    ProperTail(t, [first] + rest);
    assert ([first] + rest)[1..] == rest;
  }

  /** A completed pass removes exactly the channels that are condemned by the time they are visited. */
  lemma {:induction false} RemovedIff(t: Table, order: seq<Address>, script: Script)
    requires Proper(t, order) && Process(t, order, script).completed
    ensures Sorted(t, order, Process(t, order, script), WouldProcess(t, order, script))
    decreases |order|
  {
    if order != [] {
      var first, rest := order[0], order[1..];
      var t' := AfterFirst(t, first, script);
      assert [first] + rest == order;
      WouldProcessFirst(t, first, rest, script);
      RemovedIff(t', rest, script);
      SortedFirst(t, first, rest, script, Process(t', rest, script), WouldProcess(t', rest, script));
    }
  }

  /** Which are those that the processed ones condemn, or that were condemned before. */
  lemma {:induction false} ProcessedIff(t: Table, order: seq<Address>, script: Script, a: Address)
    requires Proper(t, order) && a in order
    ensures var w := WouldProcess(t, order, script);
            a in w <==> !Condemned(t, w, script, a)
    decreases |order|
  {
    var front, last := order[..|order| - 1], order[|order| - 1];
    assert front + [last] == order;
    WouldProcessAppend(t, front, last, script);
    OneBehind(front, last);
    LessIsStrictTotal(a, last, a);
    if a != last {
      ProcessedIff(t, front, script, a);
    }
  }

  /** A channel as a pass leaves it: the same channel, condemned or destroyed if it was before or if any
      of the processed ones, its own handlers included, did so. */
  ghost predicate LeftAs(t: Table, w: set<Address>, script: Script, a: Address, c: Chan)
    requires a in t
  {
    && c.channel == t[a].channel
    && (c.condemned <==> t[a].condemned || exists b :: b in w && Condemns(script, b, a))
    && (if t[a].Destroyed() || exists b :: b in w && Destroys(script, b, a) then c.Destroyed()
        else c.endPoint == t[a].endPoint)
  }

  lemma {:induction false} LeftAsFirst(t: Table, first: Address, w: set<Address>, script: Script, a: Address, c: Chan)
    requires first in t && a in AfterFirst(t, first, script) && LeftAs(AfterFirst(t, first, script), w, script, a, c)
    ensures LeftAs(t, OfFirst(t, first) + w, script, a, c)
  {
    ActsOfIs(script, first, a);
    var w' := OfFirst(t, first) + w;
    assert (exists b :: b in w' && Condemns(script, b, a)) <==>
           (!t[first].condemned && Condemns(script, first, a)) || exists b :: b in w && Condemns(script, b, a);
    assert (exists b :: b in w' && Destroys(script, b, a)) <==>
           (!t[first].condemned && Destroys(script, first, a)) || exists b :: b in w && Destroys(script, b, a);
  }

  /** What a completed pass leaves of every channel that stays. */
  lemma {:induction false} PassLeaves(t: Table, order: seq<Address>, script: Script, a: Address)
    requires Proper(t, order) && Process(t, order, script).completed && a in Process(t, order, script).table
    ensures a in t && LeftAs(t, WouldProcess(t, order, script), script, a, Process(t, order, script).table[a])
    decreases |order|
  {
    if order != [] {
      var first, rest := order[0], order[1..];
      var t' := AfterFirst(t, first, script);
      assert [first] + rest == order;
      WouldProcessFirst(t, first, rest, script);
      PassLeaves(t', rest, script, a);
      LeftAsFirst(t, first, WouldProcess(t', rest, script), script, a, Process(t', rest, script).table[a]);
    }
  }

  /** Both lists are in the order of the visits, which is that of the addresses. */
  lemma {:induction false} InVisitingOrder(t: Table, order: seq<Address>, script: Script)
    requires Proper(t, order)
    ensures var p := Process(t, order, script);
            && Ascending(p.removed) && Ascending(p.processed)
            && (forall a :: a in p.removed || a in p.processed ==> a in order)
    decreases |order|
  {
    if order != [] && !t[order[0]].Destroyed() && (t[order[0]].condemned || !StopsAt(script, order[0])) {
      var first, rest := order[0], order[1..];
      assert [first] + rest == order;
      ProcessUnfolds(t, first, rest, script);
      ProperTail(t, order);
      var q := Process(AfterFirst(t, first, script), rest, script);
      InVisitingOrder(AfterFirst(t, first, script), rest, script);
      AscendingFirst(first, q.removed);
      AscendingFirst(first, q.processed);
    }
  }

  lemma {:induction false} AscendingFirst(first: Address, rest: seq<Address>)
    requires Ascending(rest) && forall a :: a in rest ==> Less(first, a)
    ensures Ascending([first] + rest)
  {
    var all := [first] + rest;
    forall i, j | 0 <= i < j < |all| ensures Less(all[i], all[j]) {
      assert all[j] == rest[j - 1];
      if i > 0 {
        assert all[i] == rest[i - 1];
      }
    }
  }

  ghost predicate Partition(order: seq<Address>, removed: seq<Address>, processed: seq<Address>) {
    |removed| + |processed| == |order| && multiset(removed) + multiset(processed) == multiset(order)
  }

  lemma PartitionGrows(a: Address, rest: seq<Address>, removed: seq<Address>, processed: seq<Address>)
    requires Partition(rest, removed, processed)
    ensures Partition([a] + rest, [a] + removed, processed) && Partition([a] + rest, removed, [a] + processed)
  {
    assert multiset([a] + rest) == multiset{a} + multiset(rest);
    assert multiset([a] + removed) == multiset{a} + multiset(removed);
    assert multiset([a] + processed) == multiset{a} + multiset(processed);
  }

  lemma KeysLose(keys: set<Address>, a: Address, removed: seq<Address>)
    ensures keys - {a} - (set b | b in removed) == keys - set b | b in [a] + removed
  {
  }

  /** The visits of a completed pass partition the channels, in order, and the table loses exactly
      the removed. */
  lemma {:induction false} VisitsPartition(t: Table, order: seq<Address>, script: Script)
    requires Proper(t, order) && Process(t, order, script).completed
    ensures var p := Process(t, order, script);
            Partition(order, p.removed, p.processed) && p.table.Keys == t.Keys - set a | a in p.removed
    decreases |order|
  {
    if order != [] {
      var a, rest := order[0], order[1..];
      assert order == [a] + rest;
      var t' := AfterFirst(t, a, script);
      var q := Process(t', rest, script);
      VisitsPartition(t', rest, script);
      PartitionGrows(a, rest, q.removed, q.processed);
      KeysLose(t.Keys, a, q.removed);
    }
  }

  lemma InOrderFirst(keys: set<Address>, a: Address)
    requires IsFirst(keys, a)
    ensures InOrder(keys) == [a] + InOrder(keys - {a})
  {
    var b := InOrderUnfolds(keys);
    LessIsStrictTotal(a, b, a);
  }

  // ---------- A pass in progress ----------

  /** A pass that ends as `whole` has removed and processed these, and goes on from `t`. */
  ghost predicate GoesOn(whole: Pass, removed: seq<Address>, processed: seq<Address>, t: Table,
                         remaining: set<Address>, script: Script) {
    && Proper(t, InOrder(remaining))
    && var p := Process(t, InOrder(remaining), script);
       whole == Pass(p.table, removed + p.removed, processed + p.processed, p.completed)
  }

  lemma Begins(t: Table, script: Script)
    ensures Proper(t, InOrder(t.Keys))
    ensures GoesOn(Process(t, InOrder(t.Keys), script), [], [], t, t.Keys, script)
  {
    InOrderComplete(t.Keys);
    var p := Process(t, InOrder(t.Keys), script);
    assert [] + p.removed == p.removed && [] + p.processed == p.processed;
  }

  lemma {:induction false} ProcessUnfolds(t: Table, a: Address, rest: seq<Address>, script: Script)
    requires Proper(t, [a] + rest)
    ensures Proper(AfterFirst(t, a, script), rest)
    ensures var p, q := Process(t, [a] + rest, script), Process(AfterFirst(t, a, script), rest, script);
            p == if t[a].Destroyed() then Pass(t, [], [], false)
                 else if t[a].condemned then q.(removed := [a] + q.removed)
                 else if StopsAt(script, a) then Pass(AfterFirst(t, a, script), [], [a], false)
                 else q.(processed := [a] + q.processed)
  {
    ProperFirst(t, a, rest, script);
    assert ([a] + rest)[1..] == rest;
  }

  lemma {:induction false} ListAssoc(xs: seq<Address>, a: Address, ys: seq<Address>)
    ensures xs + ([a] + ys) == xs + [a] + ys && xs + [] == xs
  {
  }

  /** One visit advances a pass in progress, or ends it. */
  lemma {:induction false} VisitAdvances(whole: Pass, removed: seq<Address>, processed: seq<Address>, t: Table,
                                         remaining: set<Address>, script: Script, a: Address)
    requires GoesOn(whole, removed, processed, t, remaining, script) && IsFirst(remaining, a) && a in t
    ensures var t' := AfterFirst(t, a, script);
            if t[a].Destroyed() then whole == Pass(t, removed, processed, false)
            else if t[a].condemned then GoesOn(whole, removed + [a], processed, t', remaining - {a}, script)
            else if StopsAt(script, a) then whole == Pass(t', removed, processed + [a], false)
            else GoesOn(whole, removed, processed + [a], t', remaining - {a}, script)
  {
    var rest := InOrder(remaining - {a});
    InOrderFirst(remaining, a);
    ProcessUnfolds(t, a, rest, script);
    var q := Process(AfterFirst(t, a, script), rest, script);
    ListAssoc(removed, a, q.removed);
    ListAssoc(processed, a, q.processed);
  }

  lemma Ends(whole: Pass, removed: seq<Address>, processed: seq<Address>, t: Table, script: Script)
    requires GoesOn(whole, removed, processed, t, {}, script)
    ensures whole == Pass(t, removed, processed, true)
  {
    assert removed + [] == removed && processed + [] == processed;
  }

  // ---------- Registration, and whole runs ----------

  function Register(t: Table, c: Chan): (Table, bool)
    requires !c.Destroyed()
  {
    if c.endPoint.value.address in t then (t, false) else (t[c.endPoint.value.address := c], true)
  }

  /** Deregistering works by address alone. */
  function Deregister(t: Table, a: Address): (Table, bool) {
    (t - {a}, a in t)
  }

  /** Foreign code may condemn and destroy registered channels at any time. */
  datatype Op = Enter(c: Chan) | Leave(a: Address) | Foreign(acts: Acts) | ProcessAll(script: Script) | Clear
  {
    /** The source demands an endpoint with an ip of a channel to be registered. */
    predicate Legal() {
      Enter? ==> !c.Destroyed() && c.endPoint.value.address.ip != 0
    }
  }

  datatype Outcome = Up(table: Table) | Stopped

  /** The whole pass over a table. */
  ghost function PassOver(t: Table, script: Script): Pass {
    InOrderComplete(t.Keys);
    Process(t, InOrder(t.Keys), script)
  }

  /** The channels a pass over a table processes. */
  ghost function Processing(t: Table, script: Script): set<Address> {
    InOrderComplete(t.Keys);
    WouldProcess(t, InOrder(t.Keys), script)
  }

  ghost predicate SomeDestroyed(t: Table) {
    exists a :: a in t && t[a].Destroyed()
  }

  /** One operation.  The program stops at the assertion of a pass, and when a channel is to be
      destroyed twice. */
  ghost function Step(t: Table, op: Op): Outcome
    requires op.Legal()
  {
    match op
    case Enter(c) => Up(Register(t, c).0)
    case Leave(a) => Up(Deregister(t, a).0)
    case Foreign(acts) => Up(Act(t, acts))
    case ProcessAll(script) => if PassOver(t, script).completed then Up(PassOver(t, script).table) else Stopped
    case Clear => if SomeDestroyed(t) then Stopped else Up(map[])
  }

  ghost function Run(t: Table, ops: seq<Op>): Outcome
    requires forall k :: 0 <= k < |ops| ==> ops[k].Legal()
    decreases |ops|
  {
    if ops == [] then Up(t)
    else
      var next := Step(t, ops[0]);
      if next.Up? then Run(next.table, ops[1..]) else Stopped
  }

  /** Nothing new, and nothing changed but for condemning and destroying. */
  ghost predicate Lessened(t: Table, t': Table) {
    forall a :: a in t' ==>
      && a in t && t'[a].channel == t[a].channel
      && (t'[a].Destroyed() || t'[a].endPoint == t[a].endPoint)
      && (t[a].condemned ==> t'[a].condemned)
  }

  lemma {:induction false} PassLessens(t: Table, order: seq<Address>, script: Script)
    requires Proper(t, order)
    ensures Lessened(t, Process(t, order, script).table)
    decreases |order|
  {
    if order != [] && !t[order[0]].Destroyed() {
      var a := order[0];
      var t' := AfterFirst(t, a, script);
      assert Lessened(t, t');
      if t[a].condemned || !StopsAt(script, a) {
        PassLessens(t', order[1..], script);
      }
    }
  }

  lemma StepLessens(t: Table, op: Op)
    requires op.Legal() && !op.Enter? && Step(t, op).Up?
    ensures Lessened(t, Step(t, op).table)
  {
    if op.ProcessAll? {
      InOrderComplete(t.Keys);
      PassLessens(t, InOrder(t.Keys), op.script);
    }
  }

  /** The table invariant of every run: keys are addresses with an ip. */
  lemma {:induction false} RunKeepsTable(t: Table, ops: seq<Op>)
    requires TableOk(t) && forall k :: 0 <= k < |ops| ==> ops[k].Legal()
    ensures Run(t, ops).Up? ==> TableOk(Run(t, ops).table)
    decreases |ops|
  {
    if ops != [] && Step(t, ops[0]).Up? {
      if !ops[0].Enter? {
        StepLessens(t, ops[0]);
      }
      RunKeepsTable(Step(t, ops[0]).table, ops[1..]);
    }
  }

  /** The channel shares its descriptor with no live registered one, other than one under its own
      address. */
  ghost predicate FreshFd(t: Table, c: Chan)
    requires !c.Destroyed()
  {
    forall a :: a in t && !t[a].Destroyed() && t[a].endPoint.value.fd == c.endPoint.value.fd ==>
      a == c.endPoint.value.address
  }

  /** The kernel gives no two open sockets the same descriptor. */
  ghost predicate FreshFds(t: Table, ops: seq<Op>)
    requires forall k :: 0 <= k < |ops| ==> ops[k].Legal()
    decreases |ops|
  {
    ops != [] ==>
      && (ops[0].Enter? ==> assert ops[0].Legal(); FreshFd(t, ops[0].c))
      && (Step(t, ops[0]).Up? ==> FreshFds(Step(t, ops[0]).table, ops[1..]))
  }

  lemma {:induction false} RunKeepsDistinct(t: Table, ops: seq<Op>)
    requires forall k :: 0 <= k < |ops| ==> ops[k].Legal()
    requires DistinctFds(t) && FreshFds(t, ops)
    ensures Run(t, ops).Up? ==> DistinctFds(Run(t, ops).table)
    decreases |ops|
  {
    if ops != [] && Step(t, ops[0]).Up? {
      if !ops[0].Enter? {
        StepLessens(t, ops[0]);
      }
      RunKeepsDistinct(Step(t, ops[0]).table, ops[1..]);
    }
  }

  // ---------- Lookup ----------

  /** The operation takes the channel out from under its address: it is deregistered by address, a
      pass finds it condemned, or all are deregistered. */
  ghost predicate Removes(t: Table, op: Op, a: Address)
    requires a in t
  {
    match op
    case Enter(_) => false
    case Leave(b) => a == b
    case Foreign(_) => false
    case ProcessAll(script) => Condemned(t, Processing(t, script), script, a)
    case Clear => true
  }

  ghost predicate Stays(t: Table, ops: seq<Op>, a: Address)
    requires forall k :: 0 <= k < |ops| ==> ops[k].Legal()
    decreases |ops|
  {
    ops != [] ==>
      && (a in t ==> !Removes(t, ops[0], a))
      && (Step(t, ops[0]).Up? ==> Stays(Step(t, ops[0]).table, ops[1..], a))
  }

  lemma StepFinds(t: Table, op: Op, a: Address)
    requires op.Legal() && a in t && Step(t, op).Up?
    ensures var t' := Step(t, op).table;
            && (a in t' <==> !Removes(t, op, a))
            && (a in t' ==> t'[a].channel == t[a].channel)
  {
    if op.ProcessAll? {
      InOrderComplete(t.Keys);
      RemovedIff(t, InOrder(t.Keys), op.script);
      ProcessedIff(t, InOrder(t.Keys), op.script, a);
    }
    if !op.Enter? {
      StepLessens(t, op);
    }
  }

  /** Once its address finds another channel, or none, a channel that nobody registers again is not
      found there. */
  lemma {:induction false} NotFoundAgain(t: Table, ops: seq<Op>, a: Address, channel: object)
    requires forall k :: 0 <= k < |ops| ==> ops[k].Legal() && (ops[k].Enter? ==> ops[k].c.channel != channel)
    requires a in t ==> t[a].channel != channel
    ensures var r := Run(t, ops);
            r.Up? && a in r.table ==> r.table[a].channel != channel
    decreases |ops|
  {
    if ops != [] && Step(t, ops[0]).Up? {
      if !ops[0].Enter? {
        StepLessens(t, ops[0]);
      }
      NotFoundAgain(Step(t, ops[0]).table, ops[1..], a, channel);
    }
  }

  /** Over every run that does not register it again, a registered channel is the one found under its
      address exactly as long as nobody deregisters that address and no pass finds it condemned. */
  lemma {:induction false} FoundIff(t: Table, ops: seq<Op>, a: Address)
    requires a in t && forall k :: 0 <= k < |ops| ==> ops[k].Legal()
    requires forall k :: 0 <= k < |ops| && ops[k].Enter? ==> ops[k].c.channel != t[a].channel
    requires Run(t, ops).Up?
    ensures var t' := Run(t, ops).table;
            a in t' && t'[a].channel == t[a].channel <==> Stays(t, ops, a)
    decreases |ops|
  {
    if ops != [] {
      var t1 := Step(t, ops[0]).table;
      StepFinds(t, ops[0], a);
      if a in t1 {
        FoundIff(t1, ops[1..], a);
      } else {
        NotFoundAgain(t1, ops[1..], a, t[a].channel);
      }
    }
  }

  /** Registering registers: over every run that begins with it at a free address and does not register
      the channel again, the channel is the one found there exactly as long as nothing removes it. */
  lemma {:induction false} RegisteredIsFound(t: Table, c: Chan, ops: seq<Op>)
    requires Enter(c).Legal() && c.endPoint.value.address !in t
    requires forall k :: 0 <= k < |ops| ==> ops[k].Legal() && (ops[k].Enter? ==> ops[k].c.channel != c.channel)
    ensures var a, all := c.endPoint.value.address, [Enter(c)] + ops;
            && (forall k :: 0 <= k < |all| ==> all[k].Legal())
            && (Run(t, all).Up? ==>
                  var t' := Run(t, all).table;
                  (a in t' && t'[a].channel == c.channel <==> Stays(t[a := c], ops, a)))
  {
    var a, all := c.endPoint.value.address, [Enter(c)] + ops;
    assert all[0] == Enter(c) && all[1..] == ops;
    forall k | 0 <= k < |all| ensures all[k].Legal() {
      if k > 0 {
        assert all[k] == ops[k - 1];
      }
    }
    if Run(t, all).Up? {
      assert Run(t, all) == Run(t[a := c], ops);
      FoundIff(t[a := c], ops, a);
    }
  }

  /** A taken address keeps its channel. */
  lemma {:induction false} TakenIsKept(t: Table, c: Chan)
    requires Enter(c).Legal() && c.endPoint.value.address in t
    ensures Step(t, Enter(c)) == Up(t)
  {
  }

  /** The lookup by descriptor: the first live entry in map order. */
  function FindFd(t: Table, order: seq<Address>, fd: int): (r: seq<Address>)
    requires forall a :: a in order ==> a in t
    ensures r != [] ==> r[0] in order
  {
    if order == [] then []
    else if !t[order[0]].Destroyed() && t[order[0]].endPoint.value.fd == fd then [order[0]]
    else FindFd(t, order[1..], fd)
  }

  /** It finds the first live channel with the descriptor, and nothing exactly when there is none. */
  lemma {:induction false} FindFdIs(t: Table, order: seq<Address>, fd: int)
    requires forall a :: a in order ==> a in t
    ensures var r := FindFd(t, order, fd);
            if r == [] then forall a :: a in order ==> t[a].endPoint.None? || t[a].endPoint.value.fd != fd
            else exists i :: 0 <= i < |order| && r == [order[i]] &&
                   t[order[i]].endPoint.Some? && t[order[i]].endPoint.value.fd == fd &&
                   forall j :: 0 <= j < i ==> t[order[j]].endPoint.None? || t[order[j]].endPoint.value.fd != fd
    decreases |order|
  {
    if order != [] && (t[order[0]].endPoint.None? || t[order[0]].endPoint.value.fd != fd) {
      var tail := order[1..];
      FindFdIs(t, tail, fd);
      if FindFd(t, tail, fd) != [] {
        var i :| 0 <= i < |tail| && FindFd(t, tail, fd) == [tail[i]] &&
                 t[tail[i]].endPoint.Some? && t[tail[i]].endPoint.value.fd == fd &&
                 forall j :: 0 <= j < i ==> t[tail[j]].endPoint.None? || t[tail[j]].endPoint.value.fd != fd;
        assert order[i + 1] == tail[i];
        forall j | 0 <= j < i + 1 ensures t[order[j]].endPoint.None? || t[order[j]].endPoint.value.fd != fd {
          assert j > 0 ==> order[j] == tail[j - 1];
        }
      }
    }
  }

  /** With distinct descriptors the lookup by descriptor finds every live registered channel. */
  lemma {:induction false} FindsByFd(t: Table, order: seq<Address>, a: Address)
    requires (forall b :: b in order ==> b in t) && a in order && DistinctFds(t) && !t[a].Destroyed()
    ensures FindFd(t, order, t[a].endPoint.value.fd) == [a]
    decreases |order|
  {
    if order[0] != a {
      FindsByFd(t, order[1..], a);
    }
  }

  /** In every state a run reaches, both lookups agree on every live registered channel. */
  lemma LookupsAgree(t: Table, ops: seq<Op>, a: Address)
    requires forall k :: 0 <= k < |ops| ==> ops[k].Legal()
    requires TableOk(t) && DistinctFds(t) && FreshFds(t, ops)
    requires Run(t, ops).Up? && a in Run(t, ops).table && !Run(t, ops).table[a].Destroyed()
    ensures var t' := Run(t, ops).table;
            && t'[a].endPoint.value.address == a
            && (forall b :: b in InOrder(t'.Keys) <==> b in t')
            && FindFd(t', InOrder(t'.Keys), t'[a].endPoint.value.fd) == [a]
  {
    RunKeepsTable(t, ops);
    RunKeepsDistinct(t, ops);
    var t' := Run(t, ops).table;
    InOrderComplete(t'.Keys);
    FindsByFd(t', InOrder(t'.Keys), a);
  }

  // ---------- Running without a stop ----------

  predicate MayDestroy(op: Op) {
    match op
    case Foreign(acts) => acts.destroys != {}
    case ProcessAll(script) => exists a :: a in script && (script[a].acts.destroys != {} || script[a].own != Spared)
    case _ => false
  }

  /** As long as nobody destroys a registered channel, no run stops, and none becomes destroyed. */
  lemma {:induction false} NeverStops(t: Table, ops: seq<Op>)
    requires forall k :: 0 <= k < |ops| ==> ops[k].Legal() && !MayDestroy(ops[k])
    requires !SomeDestroyed(t)
    ensures Run(t, ops).Up? && !SomeDestroyed(Run(t, ops).table)
    decreases |ops|
  {
    if ops != [] {
      if ops[0].ProcessAll? {
        InOrderComplete(t.Keys);
        PassDestroysNone(t, InOrder(t.Keys), ops[0].script);
      }
      NeverStops(Step(t, ops[0]).table, ops[1..]);
    }
  }

  lemma {:induction false} PassDestroysNone(t: Table, order: seq<Address>, script: Script)
    requires Proper(t, order) && !SomeDestroyed(t) && !MayDestroy(ProcessAll(script))
    ensures Process(t, order, script).completed && !SomeDestroyed(Process(t, order, script).table)
    decreases |order|
  {
    if order != [] {
      var a := order[0];
      PassDestroysNone(AfterFirst(t, a, script), order[1..], script);
    }
  }
}
