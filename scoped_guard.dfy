/**
 * getaddrinfo and connect with the reentrancy flag released on every exit
 * path, the lookup miss included, as every other hook does. With this guard a
 * flag is never left set between calls, so no call is ever mistaken for a
 * nested one and a descriptor with a context always reaches the muacc client.
 */
module ScopedGuard {
  import opened Wrappers
  import opened Registry
  import opened Symbols
  import opened Hooks
  import Properties

  /** getaddrinfo() clearing call_in_progress before forwarding a miss. */
  function GetAddrInfoScoped(s: State, node: string, service: string, a: Answers): (out: Outcome)
    ensures CacheFilled(s, out.st, getaddrinfo, a.dl)
    ensures ResolveFails(s, getaddrinfo, a.dl) ==> Refused(s, out, getaddrinfo)
    ensures Nested(s, getaddrinfo, a.dl) ==> Forwarded(s, out, GetAddrInfo(node, service), a)
    ensures Runs(s, getaddrinfo, a.dl) && Lookup(s.table, ADDRINFO_KEY).None? ==>
              Forwarded(s, out, GetAddrInfo(node, service), a)
    ensures Runs(s, getaddrinfo, a.dl) && Lookup(s.table, ADDRINFO_KEY).Some? ==>
              Delegated(s, out, GetAddrInfo(node, service), Lookup(s.table, ADDRINFO_KEY).value, a)
    ensures out.st.table == s.table && out.st.inProgress == s.inProgress
    ensures Valid(s) ==> Valid(out.st)
  {
    var c := GetAddrInfo(node, service);
    var r := Resolve(s, getaddrinfo, a.dl);
    if r.ret != 0 then r
    else if getaddrinfo in s.inProgress then Outcome(r.st, a.libc, r.ext + [Real(c)])
    else
      match Lookup(s.table, ADDRINFO_KEY)
      case None => Outcome(r.st, a.libc, r.ext + [Real(c)])
      case Some(shell) =>
        assert Valid(s) ==> Valid(r.st.(heap := s.heap[shell := a.ctxAfter])) by {
          if Valid(s) { CtxWriteValid(r.st, ADDRINFO_KEY, a.ctxAfter); }
        }
        Outcome(r.st.(heap := s.heap[shell := a.ctxAfter]), a.muacc, r.ext + [Delegate(c, shell)])
  }

  /** connect() clearing call_in_progress before forwarding a miss. */
  function ConnectScoped(s: State, fd: Fd, a: Answers): (out: Outcome)
    ensures CacheFilled(s, out.st, connect, a.dl)
    ensures ResolveFails(s, connect, a.dl) ==> Refused(s, out, connect)
    ensures Nested(s, connect, a.dl) ==> Forwarded(s, out, Connect(fd), a)
    ensures Runs(s, connect, a.dl) && Lookup(s.table, fd).None? ==> Forwarded(s, out, Connect(fd), a)
    ensures Runs(s, connect, a.dl) && Lookup(s.table, fd).Some? ==>
              Delegated(s, out, Connect(fd), Lookup(s.table, fd).value, a)
    ensures out.st.table == s.table && out.st.inProgress == s.inProgress
    ensures Valid(s) ==> Valid(out.st)
  {
    var c := Connect(fd);
    var r := Resolve(s, connect, a.dl);
    if r.ret != 0 then r
    else if connect in s.inProgress then Outcome(r.st, a.libc, r.ext + [Real(c)])
    else
      match Lookup(s.table, fd)
      case None => Outcome(r.st, a.libc, r.ext + [Real(c)])
      case Some(shell) =>
        assert Valid(s) ==> Valid(r.st.(heap := s.heap[shell := a.ctxAfter])) by {
          if Valid(s) { CtxWriteValid(r.st, fd, a.ctxAfter); }
        }
        Outcome(r.st.(heap := s.heap[shell := a.ctxAfter]), a.muacc, r.ext + [Delegate(c, shell)])
  }

  /** One call with the released guard: no call changes any flag. */
  function StepScoped(s: State, e: Event): (out: Outcome)
    requires Valid(s)
    ensures Valid(out.st)
    ensures out.st.inProgress == s.inProgress
    ensures !e.call.GetAddrInfo? && !e.call.Connect? ==> out == Step(s, e)
    ensures e.call.GetAddrInfo? && Runs(s, getaddrinfo, e.answers.dl) && Lookup(s.table, ADDRINFO_KEY).Some? ==>
              Delegated(s, out, e.call, Lookup(s.table, ADDRINFO_KEY).value, e.answers)
    ensures e.call.Connect? && Runs(s, connect, e.answers.dl) && Lookup(s.table, e.call.fd).Some? ==>
              Delegated(s, out, e.call, Lookup(s.table, e.call.fd).value, e.answers)
  {
    match e.call
    case GetAddrInfo(node, service) => GetAddrInfoScoped(s, node, service, e.answers)
    case Connect(fd) => ConnectScoped(s, fd, e.answers)
    case _ =>
      assert socket !in s.orig ==> s.inProgress - {socket} == s.inProgress;
      Step(s, e)
  }

  /** A run of calls with the released guard; RunScopedStepAt states its steps. */
  function RunScoped(s: State, evs: seq<Event>): (t: Trace)
    requires Valid(s)
    decreases |evs|
    ensures Valid(t.final)
    ensures |t.steps| == |evs|
    ensures |evs| == 0 ==> t.final == s
    ensures |evs| > 0 ==> t.final == t.steps[|evs| - 1].out.st
  {
    if evs == [] then Trace(s, [])
    else
      var o := StepScoped(s, evs[0]);
      var rest := RunScoped(o.st, evs[1..]);
      Trace(rest.final, [Taken(s, o)] + rest.steps)
  }

  /** The i-th call of a run with the released guard is one StepScoped from
      the start state or from the state the previous call left. */
  lemma {:induction false} RunScopedStepAt(s: State, evs: seq<Event>, i: nat)
    requires Valid(s) && i < |evs|
    decreases i
    ensures var t := RunScoped(s, evs);
            && Valid(t.steps[i].before)
            && t.steps[i].out == StepScoped(t.steps[i].before, evs[i])
            && (i == 0 ==> t.steps[i].before == s)
            && (i > 0 ==> t.steps[i].before == t.steps[i - 1].out.st)
  {
    var o := StepScoped(s, evs[0]);
    var rest := RunScoped(o.st, evs[1..]);
    var t := RunScoped(s, evs);
    assert t.steps == [Taken(s, o)] + rest.steps;
    if i == 0 {
      assert t.steps[0] == Taken(s, o);
    } else {
      RunScopedStepAt(o.st, evs[1..], i - 1);
      assert t.steps[i] == rest.steps[i - 1] && evs[i] == evs[1..][i - 1];
      assert t.steps[i].out == StepScoped(t.steps[i].before, evs[i]);
      if i > 1 {
        assert t.steps[i - 1] == rest.steps[i - 2];
      }
    }
  }

  /** The flags a run starts with are the flags before each of its calls. */
  lemma {:induction false} FlagsKept(s: State, evs: seq<Event>, i: nat)
    requires Valid(s) && i < |evs|
    ensures RunScoped(s, evs).steps[i].before.inProgress == s.inProgress
  {
    RunScopedStepAt(s, evs, i);
    if i > 0 {
      FlagsKept(s, evs, i - 1);
      RunScopedStepAt(s, evs, i - 1);
    }
  }

  /** The call of step `st` is not treated as nested, and a getaddrinfo or
      connect that finds a context returns the muacc client's status. */
  predicate Delegates(st: Taken, e: Event)
  {
    && !Nested(st.before, HookOf(e.call), e.answers.dl)
    && ((e.call.GetAddrInfo? && !ResolveFails(st.before, getaddrinfo, e.answers.dl)
         && Lookup(st.before.table, ADDRINFO_KEY).Some?)
        ==> st.out.ret == e.answers.muacc)
    && ((e.call.Connect? && !ResolveFails(st.before, connect, e.answers.dl)
         && Lookup(st.before.table, e.call.fd).Some?)
        ==> st.out.ret == e.answers.muacc)
  }

  /**
   * From a state with every flag clear, no call of a run is ever treated as
   * nested, and every getaddrinfo or connect whose descriptor has a context
   * is answered by the muacc client.
   */
  lemma ScopedRunDelegates(s: State, evs: seq<Event>)
    requires Valid(s) && s.inProgress == {}
    ensures var t := RunScoped(s, evs);
            forall i | 0 <= i < |evs| :: Delegates(t.steps[i], evs[i])
  {
    var t := RunScoped(s, evs);
    forall i | 0 <= i < |evs|
      ensures Delegates(t.steps[i], evs[i])
    {
      FlagsKept(s, evs, i);
      RunScopedStepAt(s, evs, i);
      var b := t.steps[i].before;
      var a := evs[i].answers;
      assert t.steps[i].out == StepScoped(b, evs[i]);
      assert !Nested(b, HookOf(evs[i].call), a.dl);
    }
  }

  /** The run that leaves getaddrinfo's flag stuck, with the released guard:
      the second getaddrinfo reaches muacc_getaddrinfo on descriptor 1's context. */
  lemma GetAddrInfoScopedWitness()
    ensures Valid(Init) && (
            var t := RunScoped(Init, Properties.AddrInfoRun());
            && t.steps[2].out.ret == 0
            && t.steps[2].out.ext == [Delegate(GetAddrInfo("localhost", "http"), 0)])
  {
    InitValid();
    var evs := Properties.AddrInfoRun();
    var t := RunScoped(Init, evs);
    RunScopedStepAt(Init, evs, 0);
    RunScopedStepAt(Init, evs, 1);
    RunScopedStepAt(Init, evs, 2);
    var o0 := StepScoped(Init, evs[0]);
    var o1 := StepScoped(o0.st, evs[1]);
    assert Lookup(o1.st.table, ADDRINFO_KEY) == Some(0);
    assert t.steps[2].before == o1.st;
  }

  /** The run that leaves connect's flag stuck, with the released guard: the
      second connect(3) reaches muacc_connect. */
  lemma ConnectScopedWitness()
    ensures Valid(Init) && (
            var t := RunScoped(Init, Properties.ConnectRun());
            && t.steps[2].out.ret == 0
            && t.steps[2].out.ext == [Delegate(Connect(3), 0)])
  {
    InitValid();
    var evs := Properties.ConnectRun();
    var t := RunScoped(Init, evs);
    RunScopedStepAt(Init, evs, 0);
    RunScopedStepAt(Init, evs, 1);
    RunScopedStepAt(Init, evs, 2);
    var o0 := StepScoped(Init, evs[0]);
    var o1 := StepScoped(o0.st, evs[1]);
    assert Lookup(o1.st.table, 3) == Some(0);
    assert t.steps[2].before == o1.st;
  }
}
