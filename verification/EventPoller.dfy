/** The poller object: handler maps and interest table updated in place. */
module EventPoller {
  import opened Interest

  /** The kernel side of an epoll descriptor. */
  class Epoll {
    var interest: map<int, Mask>

    constructor ()
      ensures interest == map[]
    {
      interest := map[];
    }

    /** Returns true for a zero result; `refused` is the kernel's own verdict. */
    method Ctl(op: CtlOp, fd: int, mask: Mask, refused: bool) returns (ok: bool)
      modifies this
      ensures (interest, ok) == EpollCtl(old(interest), op, fd, mask, refused)
    {
      ok := !refused;
      if ok {
        match op
        case Add => ok := fd !in interest;
        case Mod => ok := fd in interest;
        case Del => ok := fd in interest;
      }
      if ok {
        interest := if op == Del then interest - {fd} else interest[fd := mask];
      }
    }
  }

  class EventPoller {
    const epoll: Epoll
    var fdReadHandlers: map<int, Handler>
    var fdWriteHandlers: map<int, Handler>

    ghost function State(): Poll
      reads this, epoll
    {
      Poll(fdReadHandlers, fdWriteHandlers, epoll.interest)
    }

    constructor ()
      ensures fresh(epoll) && State() == Empty
    {
      epoll := new Epoll();
      fdReadHandlers, fdWriteHandlers := map[], map[];
    }

    predicate IsRegistered(fd: int, isForRead: bool)
      reads this
    {
      if isForRead then fd in fdReadHandlers else fd in fdWriteHandlers
    }

    method DoRegister(fd: int, isRead: bool, isRegister: bool, refused: bool) returns (ok: bool)
      modifies epoll
      ensures (State(), ok) == Interest.DoRegister(old(State()), fd, isRead, isRegister, refused)
    {
      var mask, op;
      if IsRegistered(fd, !isRead) {
        op := Mod;
        mask := if isRegister then Mask(true, true) else if isRead then Mask(false, true) else Mask(true, false);
      } else {
        mask := if isRead then Mask(true, false) else Mask(false, true);
        op := if isRegister then Add else Del;
      }
      ok := epoll.Ctl(op, fd, mask, refused);
    }

    method RegisterForRead(fd: int, handler: Handler, refused: bool) returns (ok: bool)
      modifies this, epoll
      ensures (State(), ok) == Step(old(State()), RegisterRead(fd, handler), refused)
      ensures fdReadHandlers == if ok then old(fdReadHandlers)[fd := handler] else old(fdReadHandlers)
      ensures fdWriteHandlers == old(fdWriteHandlers)
    {
      ok := DoRegister(fd, true, true, refused);
      if ok {
        fdReadHandlers := fdReadHandlers[fd := handler];
      }
    }

    method RegisterForWrite(fd: int, handler: Handler, refused: bool) returns (ok: bool)
      modifies this, epoll
      ensures (State(), ok) == Step(old(State()), RegisterWrite(fd, handler), refused)
      ensures fdWriteHandlers == if ok then old(fdWriteHandlers)[fd := handler] else old(fdWriteHandlers)
      ensures fdReadHandlers == old(fdReadHandlers)
    {
      ok := DoRegister(fd, false, true, refused);
      if ok {
        fdWriteHandlers := fdWriteHandlers[fd := handler];
      }
    }

    method DeregisterForRead(fd: int, refused: bool) returns (ok: bool)
      modifies this, epoll
      ensures (State(), ok) == Step(old(State()), DeregisterRead(fd), refused)
      ensures fdReadHandlers == old(fdReadHandlers) - {fd} && fdWriteHandlers == old(fdWriteHandlers)
    {
      fdReadHandlers := fdReadHandlers - {fd};
      ok := DoRegister(fd, true, false, refused);
    }

    method DeregisterForWrite(fd: int, refused: bool) returns (ok: bool)
      modifies this, epoll
      ensures (State(), ok) == Step(old(State()), DeregisterWrite(fd), refused)
      ensures fdWriteHandlers == old(fdWriteHandlers) - {fd} && fdReadHandlers == old(fdReadHandlers)
    {
      fdWriteHandlers := fdWriteHandlers - {fd};
      ok := DoRegister(fd, false, false, refused);
    }

    /** What a callback does to the poller. */
    method Perform(calls: seq<(Call, bool)>)
      modifies this, epoll
      ensures State() == Run(old(State()), calls)
    {
      var i := 0;
      assert calls[0..] == calls;
      while i < |calls|
        invariant i <= |calls| && Run(State(), calls[i..]) == Run(old(State()), calls)
      {
        var _ := PerformOne(calls[i].0, calls[i].1);
        assert calls[i..][1..] == calls[i + 1..];
        i := i + 1;
      }
    }

    method PerformOne(c: Call, refused: bool) returns (ok: bool)
      modifies this, epoll
      ensures (State(), ok) == Step(old(State()), c, refused)
    {
      match c
      case RegisterRead(fd, h) => ok := RegisterForRead(fd, h, refused);
      case RegisterWrite(fd, h) => ok := RegisterForWrite(fd, h, refused);
      case DeregisterRead(fd) => ok := DeregisterForRead(fd, refused);
      case DeregisterWrite(fd) => ok := DeregisterForWrite(fd, refused);
    }

    method TriggerRead(fd: int, log: seq<Callback>, script: Script) returns (found: bool, log': seq<Callback>)
      modifies this, epoll
      ensures (State(), log') == Interest.TriggerRead(old(State()), fd, log, script)
      ensures found == (fd in old(fdReadHandlers))
    {
      if fd !in fdReadHandlers {
        return false, log;
      }
      log' := log + [OnInput(fd, fdReadHandlers[fd])];
      Perform(Actions(script, |log|));
      found := true;
    }

    method TriggerWrite(fd: int, log: seq<Callback>, script: Script) returns (found: bool, log': seq<Callback>)
      modifies this, epoll
      ensures (State(), log') == Interest.TriggerWrite(old(State()), fd, log, script)
      ensures found == (fd in old(fdWriteHandlers))
    {
      if fd !in fdWriteHandlers {
        return false, log;
      }
      log' := log + [OnOutput(fd, fdWriteHandlers[fd])];
      Perform(Actions(script, |log|));
      found := true;
    }

    method TriggerError(fd: int, log: seq<Callback>, script: Script) returns (found: bool, log': seq<Callback>)
      modifies this, epoll
      ensures (State(), log') == DispatchOne(old(State()), Ready(fd, true, false, false), log, script)
      ensures found == (fd in old(fdReadHandlers) || fd in old(fdWriteHandlers))
    {
      found, log' := TriggerRead(fd, log, script);
      if !found {
        found, log' := TriggerWrite(fd, log, script);
      }
    }

    /** Dispatches what the kernel reported; a failed wait reports -1 and no event. */
    method ProcessPendingEvents(events: seq<Ready>, waitFailed: bool, script: Script)
      returns (nfds: int, log: seq<Callback>)
      modifies this, epoll
      ensures waitFailed ==> nfds == -1 && log == [] && State() == old(State())
      ensures !waitFailed ==> nfds == |events| && (State(), log) == Dispatch(old(State()), events, [], script)
    {
      log := [];
      nfds := if waitFailed then -1 else |events|;
      if nfds < 0 {
        return;
      }
      var i := 0;
      assert events[0..] == events;
      while i < nfds
        invariant 0 <= i <= nfds
        invariant Dispatch(State(), events[i..], log, script) == Dispatch(old(State()), events, [], script)
      {
        var e := events[i];
        var found;
        assert events[i..][1..] == events[i + 1..];
        if e.error {
          found, log := TriggerError(e.fd, log, script);
        } else {
          if e.input {
            found, log := TriggerRead(e.fd, log, script);
          }
          if e.output {
            found, log := TriggerWrite(e.fd, log, script);
          }
        }
        i := i + 1;
      }
    }
  }
}
