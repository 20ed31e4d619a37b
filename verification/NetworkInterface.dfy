/** The network interface object: the channel table updated in place. */
module NetworkInterface {
  import opened Wrappers
  import opened Addresses
  import opened ChannelTable
  import opened Channels

  class NetworkInterface {
    var channelMap: map<Address, Channel>
    var hasDeregisterHandler: bool

    constructor ()
      ensures Valid() && channelMap == map[] && State() == map[] && !hasDeregisterHandler
    {
      channelMap, hasDeregisterHandler := map[], false;
    }

    /** Every key is its channel's endpoint address and has an ip, and no channel is registered
        twice; a channel without endpoint is a destroyed one. */
    ghost predicate Valid()
      reads this, channelMap.Values
    {
      && TableOk(State())
      && (forall a, b :: a in channelMap && b in channelMap && channelMap[a] == channelMap[b] ==> a == b)
    }

    ghost function State(): (t: Table)
      reads this, channelMap.Values
      ensures t.Keys == channelMap.Keys
    {
      map a | a in channelMap :: Entry(channelMap[a])
    }

    /** The source asserts that the channel still has its endpoint, and that the ip is set. */
    method RegisterChannel(c: Channel) returns (ok: bool)
      requires Valid() && c.endPoint != null && c.endPoint.address.ip != 0
      modifies this`channelMap
      ensures Valid() && (State(), ok) == Register(old(State()), Entry(c))
      ensures ok <==> c.endPoint.address !in old(channelMap)
      ensures channelMap == if ok then old(channelMap)[c.endPoint.address := c] else old(channelMap)
    {
      if c.endPoint.address in channelMap {
        return false;
      }
      channelMap := channelMap[c.endPoint.address := c];
      assert State() == old(State())[c.endPoint.address := Entry(c)];
      ok := true;
    }

    /** Removes whatever is registered under the channel's address; `notified` lists the calls of
        the deregister handler. */
    method DeregisterChannel(c: Channel) returns (ok: bool, notified: seq<Address>)
      requires Valid() && c.endPoint != null
      modifies this`channelMap
      ensures Valid() && (State(), ok) == Deregister(old(State()), c.endPoint.address)
      ensures channelMap == old(channelMap) - {c.endPoint.address}
      ensures ok <==> c.endPoint.address in old(channelMap)
      ensures notified == if ok && hasDeregisterHandler then [c.endPoint.address] else []
      ensures ok && old(channelMap)[c.endPoint.address] == c ==> c !in channelMap.Values
    {
      var a := c.endPoint.address;
      notified := [];
      ok := a in channelMap;
      channelMap := channelMap - {a};
      assert State() == old(State()) - {a};
      if ok && hasDeregisterHandler {
        notified := [a];
      }
    }

    method FindByAddress(a: Address) returns (c: Channel?)
      requires Valid()
      ensures c == if a in channelMap then channelMap[a] else null
      ensures c != null <==> a in State()
      ensures c != null ==> State()[a] == Entry(c)
    {
      if a.ip == 0 {
        return null;
      }
      c := if a in channelMap then channelMap[a] else null;
    }

    method FindByFd(fd: int) returns (c: Channel?)
      requires Valid()
      ensures forall a :: a in InOrder(channelMap.Keys) ==> a in State()
      ensures var r := FindFd(State(), InOrder(channelMap.Keys), fd);
              c == if r == [] then null else channelMap[r[0]]
    {
      InOrderComplete(channelMap.Keys);
      var remaining := channelMap.Keys;
      while remaining != {}
        invariant remaining <= channelMap.Keys
        invariant forall a :: a in InOrder(remaining) ==> a in State()
        invariant FindFd(State(), InOrder(remaining), fd) == FindFd(State(), InOrder(channelMap.Keys), fd)
        decreases remaining
      {
        FirstExists(remaining);
        var a :| a in remaining && forall b :: b in remaining && b != a ==> Less(a, b);
        assert IsFirst(remaining, a);
        InOrderFirst(remaining, a);
        InOrderComplete(remaining - {a});
        var item := channelMap[a];
        if item.endPoint != null && item.endPoint.fd == fd {
          return item;
        }
        remaining := remaining - {a};
      }
      c := null;
    }

    /** Destroys the channel under an address; false where it is destroyed already.  The kernel's
        answers to its deregistrations make no difference here. */
    method DestroyOne(a: Address, refused: bool) returns (done: bool)
      requires Valid() && a in channelMap && forall c :: c in channelMap.Values ==> c.Valid()
      modifies channelMap[a], channelMap[a].poller, channelMap[a].poller.epoll
      ensures Valid() && forall c :: c in channelMap.Values ==> c.Valid()
      ensures State() == Act(old(State()), Acts({}, {a}))
      ensures done == !old(State())[a].Destroyed()
    {
      var c := channelMap[a];
      done := c.Destroy(refused, refused);
    }

    /** Destroys the registered channels in turn, up to one that is destroyed already. */
    method DestroyAll(refused: Address -> bool) returns (completed: bool)
      requires Valid() && forall c :: c in channelMap.Values ==> c.Valid()
      modifies channelMap.Values, set c | c in channelMap.Values :: c.poller,
          set c | c in channelMap.Values :: c.poller.epoll
      ensures Valid() && forall c :: c in channelMap.Values ==> c.Valid()
      ensures completed == !SomeDestroyed(old(State()))
      ensures completed ==> State() == Act(old(State()), Acts({}, channelMap.Keys))
    {
      var left := channelMap.Keys;
      ghost var t := State();
      while left != {}
        invariant left <= channelMap.Keys
        invariant Valid() && forall c :: c in channelMap.Values ==> c.Valid()
        invariant DestroyedBut(t, State(), left)
        decreases left
      {
        FirstExists(left);
        var a :| a in left && forall b :: b in left && b != a ==> Less(a, b);
        ghost var t1 := State();
        var done := DestroyOne(a, refused(a));
        DestroyMore(t, t1, State(), left, a);
        if !done {
          return false;
        }
        left := left - {a};
      }
      completed := true;
    }

    /** Destroys every registered channel and forgets them all.  `completed` is false where the
        source destroys one a second time and follows its missing endpoint. */
    method DeregisterAllChannels(refused: Address -> bool) returns (completed: bool)
      requires Valid() && forall c :: c in channelMap.Values ==> c.Valid()
      modifies this`channelMap, channelMap.Values, set c | c in channelMap.Values :: c.poller,
          set c | c in channelMap.Values :: c.poller.epoll
      ensures Valid()
      ensures Step(old(State()), Clear) == if completed then Up(State()) else Stopped
      ensures completed <==> forall a :: a in old(channelMap) ==> old(channelMap[a].endPoint) != null
      ensures completed ==>
                && channelMap == map[]
                && forall c :: c in old(channelMap.Values) ==> c.Valid() && c.destroyed && c.endPoint == null
    {
      completed := DestroyAll(refused);
      if completed {
        forall c | c in channelMap.Values ensures c.destroyed && c.endPoint == null {
          var a :| a in channelMap && channelMap[a] == c;
          assert State()[a].Destroyed();
        }
        channelMap := map[];
        assert State() == map[];
      }
    }

    /** What the handlers of one channel's packets do to the registered channels. */
    method ProcessPackets(acts: Acts)
      requires Valid() && forall c :: c in channelMap.Values ==> c.Valid()
      modifies channelMap.Values
      modifies set c | c in channelMap.Values :: c.poller, set c | c in channelMap.Values :: c.poller.epoll
      ensures Valid() && forall c :: c in channelMap.Values ==> c.Valid()
      ensures State() == Act(old(State()), acts)
    {
      ghost var t := State();
      CondemnEach(acts.condemns * channelMap.Keys);
      CondemnAct(t, acts);
      DestroyEach(acts.destroys * channelMap.Keys, t, acts);
      ActDone(t, acts, State());
    }

    method DestroyEach(victims: set<Address>, ghost t: Table, ghost acts: Acts)
      requires Valid() && forall c :: c in channelMap.Values ==> c.Valid()
      requires victims == acts.destroys * channelMap.Keys && ActedBut(t, acts, State(), victims)
      modifies channelMap.Values
      modifies set c | c in channelMap.Values :: c.poller, set c | c in channelMap.Values :: c.poller.epoll
      ensures Valid() && forall c :: c in channelMap.Values ==> c.Valid()
      ensures ActedBut(t, acts, State(), {})
    {
      var left := victims;
      while left != {}
        invariant left <= victims
        invariant Valid() && forall c :: c in channelMap.Values ==> c.Valid()
        invariant ActedBut(t, acts, State(), left)
        decreases left
      {
        var a :| a in left;
        ghost var t1 := State();
        if channelMap[a].endPoint != null {
          var _ := DestroyOne(a, false);
        }
        ActMore(t, acts, t1, State(), left, a);
        left := left - {a};
      }
    }

    method CondemnEach(victims: set<Address>)
      requires Valid() && victims <= channelMap.Keys
      modifies channelMap.Values`condemned
      ensures Valid() && State() == Act(old(State()), Acts(victims, {}))
    {
      var left := victims;
      ghost var t := State();
      ActNothing(t);
      assert victims - left == {};
      while left != {}
        invariant left <= victims && Valid()
        invariant State() == Act(t, Acts(victims - left, {}))
        decreases left
      {
        var a :| a in left;
        CondemnOne(a, channelMap[a]);
        CondemnMore(t, victims, left, a);
        left := left - {a};
      }
      assert victims - left == victims;
    }

    method CondemnOne(a: Address, c: Channel)
      requires Valid() && a in channelMap && channelMap[a] == c
      modifies c`condemned
      ensures Valid() && State() == Act(old(State()), Acts({a}, {}))
    {
      c.condemned := true;
    }

    /** One visit: false where the source's assertion fails, at a channel that was destroyed while
        registered, and where a reader follows the endpoint of a channel its handler destroyed. */
    method VisitOne(a: Address, script: Script) returns (going: bool, notified: seq<Address>, removed: bool)
      requires Valid() && a in channelMap && forall c :: c in channelMap.Values ==> c.Valid()
      modifies this`channelMap, channelMap.Values
      modifies set c | c in channelMap.Values :: c.poller, set c | c in channelMap.Values :: c.poller.epoll
      ensures Valid() && forall c :: c in channelMap.Values ==> c.Valid()
      ensures channelMap.Values <= old(channelMap.Values) && hasDeregisterHandler == old(hasDeregisterHandler)
      ensures VisitedAs(old(State()), a, script, going, removed, State())
      ensures notified == if going && removed then Notified(hasDeregisterHandler, [a]) else []
    {
      var c := channelMap[a];
      going, notified, removed := true, [], c.destroyed || c.condemned;
      assert c in channelMap.Values;
      if removed {
        if c.endPoint == null {
          going := false;
          return;
        }
        var ok;
        ok, notified := DeregisterChannel(c);
      } else {
        ProcessPackets(ActsOf(script, a));
        going := !StopsAt(script, a);
      }
    }

    /** Visits the next channel in order. */
    method VisitNext(remaining: set<Address>, script: Script, ghost whole: Pass, ghost done: Done)
      returns (a: Address, going: bool, notified: seq<Address>, removed: bool, ghost done': Done)
      requires Valid() && remaining != {} && remaining <= channelMap.Keys
      requires forall c :: c in channelMap.Values ==> c.Valid()
      requires GoesOn(whole, done.removed, done.processed, State(), remaining, script)
      modifies this`channelMap, channelMap.Values
      modifies set c | c in channelMap.Values :: c.poller, set c | c in channelMap.Values :: c.poller.epoll
      ensures Valid() && forall c :: c in channelMap.Values ==> c.Valid()
      ensures channelMap.Values <= old(channelMap.Values) && hasDeregisterHandler == old(hasDeregisterHandler)
      ensures a in remaining && done' == Extended(done, a, going, removed)
      ensures if going then
                && remaining - {a} <= channelMap.Keys
                && GoesOn(whole, done'.removed, done'.processed, State(), remaining - {a}, script)
              else whole == Pass(State(), done'.removed, done'.processed, false)
      ensures notified == if going && removed then Notified(hasDeregisterHandler, [a]) else []
    {
      FirstExists(remaining);
      a :| a in remaining && forall b :: b in remaining && b != a ==> Less(a, b);
      assert IsFirst(remaining, a);
      VisitAdvances(whole, done.removed, done.processed, State(), remaining, script, a);
      going, notified, removed := VisitOne(a, script);
      done' := Extended(done, a, going, removed);
      assert channelMap.Keys == State().Keys;
    }

    /** The processing pass.  `completed` is false where the source fails. */
    method ProcessChannels(script: Script)
      returns (completed: bool, notified: seq<Address>, processed: seq<Address>)
      requires Valid() && forall c :: c in channelMap.Values ==> c.Valid()
      modifies this`channelMap, channelMap.Values
      modifies set c | c in channelMap.Values :: c.poller, set c | c in channelMap.Values :: c.poller.epoll
      ensures Valid() && forall c :: c in channelMap.Values ==> c.Valid()
      ensures channelMap.Values <= old(channelMap.Values)
      ensures var p := PassOver(old(State()), script);
              && completed == p.completed && State() == p.table
              && processed == p.processed && notified == if hasDeregisterHandler then p.removed else []
    {
      notified, processed, completed := [], [], true;
      ghost var whole, done := PassOver(State(), script), Done([], []);
      Begins(State(), script);
      var remaining := channelMap.Keys;
      while remaining != {}
        invariant Valid() && forall c :: c in channelMap.Values ==> c.Valid()
        invariant channelMap.Values <= old(channelMap.Values)
        invariant remaining <= channelMap.Keys
        invariant GoesOn(whole, done.removed, done.processed, State(), remaining, script)
        invariant Told(hasDeregisterHandler, done, notified, processed)
        decreases remaining
      {
        var a, going, more, gone;
        ghost var before := done;
        a, going, more, gone, done := VisitNext(remaining, script, whole, done);
        ToldMore(hasDeregisterHandler, before, notified, processed, a, going, gone);
        notified := notified + more;
        if !gone {
          processed := processed + [a];
        }
        if !going {
          return false, notified, processed;
        }
        remaining := remaining - {a};
      }
      Ends(whole, done.removed, done.processed, State(), script);
    }
  }

  /** One visit and what it leaves. */
  ghost predicate VisitedAs(t: Table, a: Address, script: Script, going: bool, removed: bool, t': Table)
    requires a in t
  {
    && removed == (t[a].Destroyed() || t[a].condemned)
    && going == (!t[a].Destroyed() && (t[a].condemned || !StopsAt(script, a)))
    && t' == if t[a].Destroyed() then t else AfterFirst(t, a, script)
  }

  function Extended(done: Done, a: Address, going: bool, removed: bool): Done {
    if !removed then done.(processed := done.processed + [a])
    else if going then done.(removed := done.removed + [a])
    else done
  }

  /** What a pass in progress has done. */
  datatype Done = Done(removed: seq<Address>, processed: seq<Address>)

  /** All condemned, and all destroyed but those left. */
  ghost predicate ActedBut(t: Table, acts: Acts, t': Table, left: set<Address>) {
    t' == Act(t, Acts(acts.condemns, acts.destroys - left))
  }

  lemma ActNothing(t: Table)
    ensures Act(t, Acts({}, {})) == t
  {
  }

  lemma CondemnMore(t: Table, victims: set<Address>, left: set<Address>, a: Address)
    requires left <= victims && a in left
    ensures Act(Act(t, Acts(victims - left, {})), Acts({a}, {})) == Act(t, Acts(victims - (left - {a}), {}))
  {
  }

  lemma CondemnAct(t: Table, acts: Acts)
    ensures ActedBut(t, acts, Act(t, Acts(acts.condemns * t.Keys, {})), acts.destroys * t.Keys)
  {
  }

  lemma ActMore(t: Table, acts: Acts, t1: Table, t2: Table, left: set<Address>, a: Address)
    requires left <= acts.destroys && a in left && a in t && ActedBut(t, acts, t1, left)
    requires t2 == if t1[a].Destroyed() then t1 else Act(t1, Acts({}, {a}))
    ensures ActedBut(t, acts, t2, left - {a})
  {
  }

  lemma ActDone(t: Table, acts: Acts, t': Table)
    requires ActedBut(t, acts, t', {})
    ensures t' == Act(t, acts)
  {
    assert acts.destroys - {} == acts.destroys;
  }

  /** All but the ones left were alive and have been destroyed. */
  ghost predicate DestroyedBut(t: Table, t': Table, left: set<Address>) {
    && t' == Act(t, Acts({}, t.Keys - left))
    && forall a :: a in t && a !in left ==> !t[a].Destroyed()
  }

  lemma DestroyMore(t: Table, t1: Table, t2: Table, left: set<Address>, a: Address)
    requires left <= t.Keys && a in left && DestroyedBut(t, t1, left) && t2 == Act(t1, Acts({}, {a}))
    ensures t1[a].Destroyed() ==> SomeDestroyed(t)
    ensures !t1[a].Destroyed() ==> DestroyedBut(t, t2, left - {a})
  {
    assert t1[a] == t[a];
    assert t2 == Act(t, Acts({}, t.Keys - (left - {a})));
  }

  /** The deregister handler, if there is one, hears of every removal. */
  function Notified(hasHandler: bool, removed: seq<Address>): seq<Address> {
    if hasHandler then removed else []
  }

  /** What has been reported of a pass in progress. */
  ghost predicate Told(hasHandler: bool, done: Done, notified: seq<Address>, processed: seq<Address>) {
    processed == done.processed && notified == Notified(hasHandler, done.removed)
  }

  lemma ToldMore(hasHandler: bool, done: Done, notified: seq<Address>, processed: seq<Address>, a: Address,
                 going: bool, removed: bool)
    requires Told(hasHandler, done, notified, processed)
    ensures Told(hasHandler, Extended(done, a, going, removed),
                 notified + if going && removed then Notified(hasHandler, [a]) else [],
                 if removed then processed else processed + [a])
  {
    assert notified + [] == notified;
  }

  ghost function Entry(c: Channel): Chan
    reads c
  {
    Chan(c, if c.endPoint == null then None else Some(End(c.endPoint.fd, c.endPoint.address)), c.condemned)
  }
}
