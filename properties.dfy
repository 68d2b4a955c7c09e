/**
 * What runs of intercepted calls do to the socket table and to the
 * call_in_progress flags.
 */
module Properties {
  import opened Wrappers
  import opened Registry
  import opened Symbols
  import opened Hooks

  /** One call keeps a flag that is already set; a call of that hook only forwards. */
  lemma FlagKeptByStep(s: State, e: Event, h: Hook)
    requires Valid(s) && h in s.inProgress
    ensures h in Step(s, e).st.inProgress
    ensures HookOf(e.call) == h ==> Forwarded(s, Step(s, e), e.call, e.answers)
  {
    if HookOf(e.call) == h {
      assert Nested(s, h, e.answers.dl);
    }
  }

  /** A flag set at the start of a run is still set before each of its calls. */
  lemma {:induction false} FlagSetBefore(s: State, evs: seq<Event>, h: Hook, i: nat)
    requires Valid(s) && h in s.inProgress && i < |evs|
    ensures h in Run(s, evs).steps[i].before.inProgress
  {
    var t := Run(s, evs);
    RunStepAt(s, evs, i);
    if i > 0 {
      FlagSetBefore(s, evs, h, i - 1);
      RunStepAt(s, evs, i - 1);
      FlagKeptByStep(t.steps[i - 1].before, evs[i - 1], h);
    }
  }

  /**
   * Once a hook's call_in_progress flag is true between two calls, it stays
   * true for good, and every later call of that hook only forwards to the real
   * function. getaddrinfo and connect leave their flag in this state after a
   * lookup miss.
   */
  lemma FlagStaysSet(s: State, evs: seq<Event>, h: Hook)
    requires Valid(s) && h in s.inProgress
    ensures h in Run(s, evs).final.inProgress
    ensures forall i | 0 <= i < |evs| && HookOf(evs[i].call) == h ::
              Forwarded(Run(s, evs).steps[i].before, Run(s, evs).steps[i].out, evs[i].call, evs[i].answers)
  {
    var t := Run(s, evs);
    forall i | 0 <= i < |evs|
      ensures h in t.steps[i].out.st.inProgress
      ensures HookOf(evs[i].call) == h ==> Forwarded(t.steps[i].before, t.steps[i].out, evs[i].call, evs[i].answers)
    {
      FlagSetBefore(s, evs, h, i);
      RunStepAt(s, evs, i);
      FlagKeptByStep(t.steps[i].before, evs[i], h);
    }
  }

  /** Option calls do not change the table or any flag, however many there are. */
  lemma {:induction false} OptionCallsKeepTable(s: State, evs: seq<Event>)
    requires Valid(s)
    requires forall i | 0 <= i < |evs| :: evs[i].call.SetSockOpt? || evs[i].call.GetSockOpt?
    decreases |evs|
    ensures Run(s, evs).final.table == s.table
    ensures Run(s, evs).final.inProgress == s.inProgress
  {
    if evs != [] {
      var o := Step(s, evs[0]);
      assert o.st.table == s.table && o.st.inProgress == s.inProgress;
      OptionCallsKeepTable(o.st, evs[1..]);
    }
  }

  /**
   * A socket created through the layer, used with any number of option calls
   * and then closed through the layer, leaves the table as it found it, and
   * its context goes through st_free_ctx at the close.
   */
  lemma SocketUseCloseRestoresTable(s: State, domain: int, kind: int, protocol: int, a: Answers,
                                    evs: seq<Event>, b: Answers)
    requires Valid(s)
    requires Runs(s, socket, a.dl) && a.libc >= 0 && a.muacc >= 0 && a.libc !in Entries(s.table)
    requires forall i | 0 <= i < |evs| :: evs[i].call.SetSockOpt? || evs[i].call.GetSockOpt?
    requires Runs(s, close, b.dl)
    ensures Valid(SocketHook(s, domain, kind, protocol, a).st)
    ensures var s2 := Run(SocketHook(s, domain, kind, protocol, a).st, evs).final;
            var out := CloseHook(s2, a.libc, b);
            && Entries(out.st.table) == Entries(s.table)
            && out.st.inProgress == s.inProgress
            && out.ret == b.libc
            && |out.ext| >= 2
            && out.ext[|out.ext| - 2].Dispose?
            && out.ext[|out.ext| - 2].disposal.shell == s.nextShell
  {
    var s1 := SocketHook(s, domain, kind, protocol, a).st;
    SocketRegisters(s, domain, kind, protocol, a);
    OptionCallsKeepTable(s1, evs);
    var s2 := Run(s1, evs).final;
    assert Runs(s2, close, b.dl) by {
      RunKeepsCache(s1, evs);
      assert close in s.orig ==> close in s1.orig && close in s2.orig;
    }
    CloseUnregisters(s2, a.libc, b);
  }

  /** A successful socket() whose descriptor was not in the table adds
      exactly that descriptor, with the fresh shell. */
  lemma SocketRegisters(s: State, domain: int, kind: int, protocol: int, a: Answers)
    requires Valid(s)
    requires Runs(s, socket, a.dl) && a.libc >= 0 && a.muacc >= 0 && a.libc !in Entries(s.table)
    ensures var s1 := SocketHook(s, domain, kind, protocol, a).st;
            && Valid(s1)
            && Lookup(s1.table, a.libc) == Some(s.nextShell)
            && Entries(s1.table) - {a.libc} == Entries(s.table)
            && s1.inProgress == s.inProgress
            && (forall g | g in s.orig :: g in s1.orig)
  {
    var s1 := SocketHook(s, domain, kind, protocol, a).st;
    assert Entries(s1.table) == Entries(s.table)[a.libc := s.nextShell];
  }

  /** close() of a descriptor in the table removes exactly that entry and
      runs st_free_ctx on its context just before the real close. */
  lemma CloseUnregisters(s: State, fd: Fd, b: Answers)
    requires Valid(s) && Runs(s, close, b.dl) && Lookup(s.table, fd).Some?
    ensures var out := CloseHook(s, fd, b);
            && Entries(out.st.table) == Entries(s.table) - {fd}
            && out.st.inProgress == s.inProgress
            && out.ret == b.libc
            && |out.ext| >= 2
            && out.ext[|out.ext| - 2] == Dispose(FreeCtx(s.heap, Lookup(s.table, fd).value, b.release).disposal)
  {
  }

  /** Answers in which every symbol is found. */
  function Answer(libc: int, muacc: int): Answers
  {
    Answers(Found(7), libc, muacc, Some(3), ReleaseAnswer(0, None))
  }

  /** getaddrinfo before descriptor 1 has a context, socket() returning 1,
      then getaddrinfo again (real result -2, muacc_getaddrinfo would give 0). */
  function AddrInfoRun(): seq<Event>
  {
    [Event(GetAddrInfo("localhost", "http"), Answer(0, 0)),
     Event(Socket(2, 1, 0), Answer(1, 0)),
     Event(GetAddrInfo("localhost", "http"), Answer(-2, 0))]
  }

  /** connect(3) before descriptor 3 has a context, socket() returning 3,
      then connect(3) again (real result -1, muacc_connect would give 0). */
  function ConnectRun(): seq<Event>
  {
    [Event(Connect(3), Answer(-1, 0)),
     Event(Socket(2, 1, 0), Answer(3, 0)),
     Event(Connect(3), Answer(-1, 0))]
  }

  /** The step of a concrete event is the hook it names. */
  lemma StepConnect(s: State, fd: Fd, a: Answers)
    requires Valid(s)
    ensures Step(s, Event(Connect(fd), a)) == ConnectHook(s, fd, a)
  {
  }

  lemma StepSocket(s: State, domain: int, kind: int, protocol: int, a: Answers)
    requires Valid(s)
    ensures Step(s, Event(Socket(domain, kind, protocol), a)) == SocketHook(s, domain, kind, protocol, a)
  {
  }

  lemma StepGetAddrInfo(s: State, node: string, service: string, a: Answers)
    requires Valid(s)
    ensures Step(s, Event(GetAddrInfo(node, service), a)) == GetAddrInfoHook(s, node, service, a)
  {
  }

  /**
   * In AddrInfoRun, although descriptor 1 has a context by the second
   * getaddrinfo, that call is forwarded to the real getaddrinfo and
   * muacc_getaddrinfo is never called.
   */
  lemma GetAddrInfoStuckWitness()
    ensures Valid(Init) && (
            var t := Run(Init, AddrInfoRun());
            && Lookup(t.steps[2].before.table, ADDRINFO_KEY).Some?
            && t.steps[2].out.ret == -2
            && t.steps[2].out.ext == [Real(GetAddrInfo("localhost", "http"))])
  {
    InitValid();
    var evs := AddrInfoRun();
    var t := Run(Init, evs);
    RunStepAt(Init, evs, 0);
    RunStepAt(Init, evs, 1);
    RunStepAt(Init, evs, 2);
    var o0 := GetAddrInfoHook(Init, "localhost", "http", evs[0].answers);
    StepGetAddrInfo(Init, "localhost", "http", evs[0].answers);
    assert getaddrinfo in o0.st.inProgress;
    var o1 := SocketHook(o0.st, 2, 1, 0, evs[1].answers);
    StepSocket(o0.st, 2, 1, 0, evs[1].answers);
    assert Lookup(o1.st.table, ADDRINFO_KEY).Some?;
    assert t.steps[2].before == o1.st;
  }

  /** In ConnectRun, the second connect(3) goes to the real connect although
      descriptor 3 has a context; muacc_connect is never called. */
  lemma ConnectStuckWitness()
    ensures Valid(Init) && (
            var t := Run(Init, ConnectRun());
            && Lookup(t.steps[2].before.table, 3).Some?
            && t.steps[2].out.ret == -1
            && t.steps[2].out.ext == [Real(Connect(3))])
  {
    InitValid();
    var evs := ConnectRun();
    var t := Run(Init, evs);
    RunStepAt(Init, evs, 0);
    RunStepAt(Init, evs, 1);
    RunStepAt(Init, evs, 2);
    var o0 := ConnectHook(Init, 3, evs[0].answers);
    StepConnect(Init, 3, evs[0].answers);
    assert connect in o0.st.inProgress;
    var o1 := SocketHook(o0.st, 2, 1, 0, evs[1].answers);
    StepSocket(o0.st, 2, 1, 0, evs[1].answers);
    assert Lookup(o1.st.table, 3).Some?;
    assert t.steps[2].before == o1.st;
  }
}
