/**
 * The seven interposed functions of libintents as transitions over the
 * process-wide state: the socket table, the heap of context shells, the cached
 * orig_* pointers, the per-hook call_in_progress flags and errno.
 *
 * The real libc functions, dlsym/dlerror and the muacc_* client are oracles:
 * what they answer in one call is an `Answers` value, and every call the layer
 * makes to them is recorded, in order, as an `Ext` event. So is each run of
 * st_free_ctx, the library's own value destructor, which reaches
 * muacc_release_context.
 */
module Hooks {
  import opened Wrappers
  import opened Registry
  import opened Symbols

  /** Linux's errno value for "out of memory". */
  const ENOMEM: int := 12

  /** The descriptor getaddrinfo looks up, for want of a real one. */
  const ADDRINFO_KEY: Fd := 1

  /** An application call, with the scalar arguments the layer passes on
      (buffers and address structures are forwarded untouched). */
  datatype Call =
    | Socket(domain: int, kind: int, protocol: int)
    | SetSockOpt(fd: Fd, level: int, optname: int, optlen: int)
    | GetSockOpt(fd: Fd, level: int, optname: int)
    | GetAddrInfo(node: string, service: string)
    | Bind(fd: Fd)
    | Connect(fd: Fd)
    | Close(fd: Fd)

  function HookOf(c: Call): Hook
  {
    match c
    case Socket(_, _, _) => socket
    case SetSockOpt(_, _, _, _) => setsockopt
    case GetSockOpt(_, _, _) => getsockopt
    case GetAddrInfo(_, _) => getaddrinfo
    case Bind(_) => bind
    case Connect(_) => connect
    case Close(_) => close
  }

  /** What the foreign code answers during one call. */
  datatype Answers = Answers(
    dl: DlSym,                  // dlsym/dlerror, if the real function is not cached
    libc: int,                  // the real libc function's return value
    muacc: int,                 // the status of the muacc_* operation the hook makes
    ctxAfter: Option<Handle>,   // ctx->ctx as that muacc_* operation leaves it
    release: ReleaseAnswer)     // muacc_release_context, if a destructor runs

  /** One call into foreign code. */
  datatype Ext =
    | Dlsym(hook: Hook)                // get_orig_function looked the symbol up
    | Real(call: Call)                 // the real function, same arguments
    | InitContext(shell: Shell)        // muacc_init_context on a fresh shell
    | Delegate(call: Call, shell: Shell) // muacc_setsockopt/getsockopt/getaddrinfo/connect
    | Dispose(disposal: Disposal)      // st_free_ctx ran on a removed context

  datatype State = State(
    table: Table,
    heap: Heap,
    orig: map<Hook, Addr>,      // the non-NULL orig_* pointers
    inProgress: set<Hook>,      // the hooks whose call_in_progress is true
    errno: int,
    nextShell: Shell)           // where malloc puts the next context shell

  /** The state after a call, the value the call returns and the foreign calls
      it made. */
  datatype Outcome = Outcome(st: State, ret: int, ext: seq<Ext>)

  /** Process start: no table, nothing cached, every flag false. */
  const Init := State(None, map[], map[], {}, 0, 0)

  /**
   * The invariant of every reachable state: a set flag implies a cached
   * pointer; the table points only to live shells, and to distinct ones; the
   * next shell is fresh.
   */
  ghost predicate Valid(s: State)
  {
    && s.inProgress <= s.orig.Keys
    && TableLive(s.table, s.heap)
    && (forall sh | sh in s.heap :: sh < s.nextShell)
    && (forall f, g | f in Entries(s.table) && g in Entries(s.table) && f != g ::
          Entries(s.table)[f] != Entries(s.table)[g])
  }

  lemma InitValid()
    ensures Valid(Init) && Entries(Init.table) == map[]
  {
  }

  /** The real function is not cached and cannot be found. */
  predicate ResolveFails(s: State, h: Hook, dl: DlSym)
  {
    h !in s.orig && dl.Missing?
  }

  /** The flag is already set: the call is nested and only forwards. */
  predicate Nested(s: State, h: Hook, dl: DlSym)
  {
    !ResolveFails(s, h, dl) && h in s.inProgress
  }

  /** The hook runs its own body. */
  predicate Runs(s: State, h: Hook, dl: DlSym)
  {
    !ResolveFails(s, h, dl) && h !in s.inProgress
  }

  /** The foreign calls resolution makes before anything else. */
  function Lookups(s: State, h: Hook): seq<Ext>
  {
    if h in s.orig then [] else [Dlsym(h)]
  }

  /** What a hook does to the orig_* cache: its own pointer is filled in by a
      successful lookup and kept once set; no other pointer changes. */
  ghost predicate CacheFilled(s: State, t: State, h: Hook, dl: DlSym)
  {
    && (forall g | g != h :: (g in t.orig <==> g in s.orig))
    && (forall g | g in s.orig :: g in t.orig && t.orig[g] == s.orig[g])
    && (h in t.orig <==> !ResolveFails(s, h, dl))
    && (h !in s.orig && dl.Found? ==> t.orig[h] == dl.addr)
  }

  /** The call only forwarded to the real function: it returns the real
      result, makes no other foreign call than the lookup, and changes nothing
      but the cache. */
  ghost predicate Forwarded(s: State, out: Outcome, c: Call, a: Answers)
  {
    && out.ret == a.libc
    && out.ext == Lookups(s, HookOf(c)) + [Real(c)]
    && out.st == s.(orig := out.st.orig)
  }

  /** Resolution failed: -1 after the one failed lookup, nothing changed. */
  ghost predicate Refused(s: State, out: Outcome, h: Hook)
  {
    out.ret == -1 && out.ext == [Dlsym(h)] && out.st == s
  }

  /** The call handed itself to the muacc client on `shell`: it returns the
      client's status, and only the cache and that context's ctx field change. */
  ghost predicate Delegated(s: State, out: Outcome, c: Call, shell: Shell, a: Answers)
  {
    && out.ret == a.muacc
    && out.ext == Lookups(s, HookOf(c)) + [Delegate(c, shell)]
    && out.st == s.(orig := out.st.orig, heap := s.heap[shell := a.ctxAfter])
  }

  function Disposals(d: Option<Disposal>): seq<Ext>
  {
    if d.Some? then [Dispose(d.value)] else []
  }

  /** A muacc_* call that rewrites the ctx field of a context in the table
      keeps the invariant. */
  lemma CtxWriteValid(s: State, fd: Fd, x: Option<Handle>)
    requires Valid(s) && fd in Entries(s.table)
    ensures Valid(s.(heap := s.heap[Entries(s.table)[fd] := x]))
  {
    assert Entries(s.table)[fd] in s.heap;
  }

  /** Step 1 of every hook: get_orig_function, only while the pointer is NULL. */
  function Resolve(s: State, h: Hook, dl: DlSym): (r: Outcome)
    ensures r.ret == 0 || r.ret == -1
    ensures r.ret == 0 <==> !ResolveFails(s, h, dl)
    ensures r.ext == Lookups(s, h)
    ensures r.st == s.(orig := r.st.orig)
    ensures CacheFilled(s, r.st, h, dl)
  {
    if h in s.orig then
      Outcome(s, 0, [])
    else
      var lk := GetOrigFunction(Some(Name(h)), true, dl);
      Outcome(s.(orig := Store(s.orig, h, lk.stored)), lk.status, [Dlsym(h)])
  }

  /**
   * socket(): the real socket is created first; a descriptor it returns gets a
   * fresh context, which enters the table only if muacc_init_context succeeds.
   * On init failure errno becomes ENOMEM, the shell stays allocated and
   * unreferenced, and the descriptor is still returned.
   */
  function SocketHook(s: State, domain: int, kind: int, protocol: int, a: Answers): (out: Outcome)
    requires TableLive(s.table, s.heap)
    ensures CacheFilled(s, out.st, socket, a.dl)
    ensures ResolveFails(s, socket, a.dl) ==>
              out.ret == -1 && out.ext == [Dlsym(socket)]
              && out.st == s.(inProgress := s.inProgress - {socket})
    ensures Nested(s, socket, a.dl) ==> Forwarded(s, out, Socket(domain, kind, protocol), a)
    ensures Runs(s, socket, a.dl) ==>
              && out.ret == a.libc
              && out.st.table.Some?
              && out.st.inProgress == s.inProgress
              && Entries(out.st.table) == (if a.libc >= 0 && a.muacc >= 0
                                           then Entries(s.table)[a.libc := s.nextShell]
                                           else Entries(s.table))
              && out.st.errno == (if a.libc >= 0 && a.muacc < 0 then ENOMEM else s.errno)
              && |out.ext| > |Lookups(s, socket)|
              && out.ext[..|Lookups(s, socket)| + 1] == Lookups(s, socket) + [Real(Socket(domain, kind, protocol))]
    ensures Runs(s, socket, a.dl) && a.libc < 0 ==>
              out.st == s.(orig := out.st.orig, table := out.st.table)
              && |out.ext| == |Lookups(s, socket)| + 1
    ensures Runs(s, socket, a.dl) && a.libc >= 0 ==>
              && out.st.nextShell == s.nextShell + 1
              && |out.ext| > |Lookups(s, socket)| + 1
              && out.ext[|Lookups(s, socket)| + 1] == InitContext(s.nextShell)
    ensures Runs(s, socket, a.dl) && a.libc >= 0 && a.muacc < 0 ==>
              && out.st.heap == s.heap[s.nextShell := a.ctxAfter]
              && |out.ext| == |Lookups(s, socket)| + 2
    ensures Valid(s) ==> Valid(out.st)
  {
    var c := Socket(domain, kind, protocol);
    var r := Resolve(s, socket, a.dl);
    if r.ret != 0 then
      Outcome(s.(inProgress := s.inProgress - {socket}), r.ret, r.ext)
    else if socket in s.inProgress then
      Outcome(r.st, a.libc, r.ext + [Real(c)])
    else
      var b := CreateSocket(r.st.(inProgress := s.inProgress + {socket}), domain, kind, protocol, a);
      Outcome(b.st.(inProgress := s.inProgress), b.ret, r.ext + b.ext)
  }

  /**
   * The part of socket() that runs with its flag set: the table is created if
   * absent and the real socket is called; a descriptor it returns gets the
   * context NewContext makes, which is inserted only if its init succeeds.
   */
  function CreateSocket(s: State, domain: int, kind: int, protocol: int, a: Answers): (out: Outcome)
    requires TableLive(s.table, s.heap)
    ensures out.ret == a.libc
    ensures out.st.table.Some? && out.st.orig == s.orig && out.st.inProgress == s.inProgress
    ensures Entries(out.st.table) == (if a.libc >= 0 && a.muacc >= 0
                                      then Entries(s.table)[a.libc := s.nextShell]
                                      else Entries(s.table))
    ensures out.st.errno == (if a.libc >= 0 && a.muacc < 0 then ENOMEM else s.errno)
    ensures a.libc < 0 ==>
              out.st == s.(table := Some(Entries(s.table))) && out.ext == [Real(Socket(domain, kind, protocol))]
    ensures a.libc >= 0 ==>
              var n := NewContext(s.(table := Some(Entries(s.table))), a.libc, a);
              out.st == n.st && out.ext == [Real(Socket(domain, kind, protocol))] + n.ext
    ensures Valid(s) ==> Valid(out.st)
  {
    var created := s.(table := Some(Entries(s.table)));
    if a.libc < 0 then
      Outcome(created, a.libc, [Real(Socket(domain, kind, protocol))])
    else
      var n := NewContext(created, a.libc, a);
      Outcome(n.st, a.libc, [Real(Socket(domain, kind, protocol))] + n.ext)
  }

  /**
   * The context socket() makes for a new descriptor: a fresh shell with a
   * NULL ctx field, muacc_init_context on it, and, only if that succeeds, the
   * insertion into the table; otherwise errno becomes ENOMEM.
   */
  function NewContext(s: State, fd: Fd, a: Answers): (out: Outcome)
    requires s.table.Some? && TableLive(s.table, s.heap)
    ensures out.st.orig == s.orig && out.st.inProgress == s.inProgress
    ensures out.st.table.Some? && out.st.nextShell == s.nextShell + 1
    ensures |out.ext| > 0 && out.ext[0] == InitContext(s.nextShell)
    ensures a.muacc < 0 ==>
              && out.st.table == s.table
              && out.st.heap == s.heap[s.nextShell := a.ctxAfter]
              && out.st.errno == ENOMEM
              && |out.ext| == 1
    ensures a.muacc >= 0 ==>
              && out.st.table.value == s.table.value[fd := s.nextShell]
              && out.st.errno == s.errno
    // a context already stored under fd is replaced and goes through st_free_ctx
    ensures a.muacc >= 0 ==>
              var u := Insert(Entries(s.table), s.heap[s.nextShell := a.ctxAfter], fd, s.nextShell, a.release);
              && out.st.heap == u.heap
              && out.ext == [InitContext(s.nextShell)] + Disposals(u.disposed)
    ensures Valid(s) ==> Valid(out.st)
  {
    var t := s.table.value;
    var shell := s.nextShell;
    var heap := s.heap[shell := a.ctxAfter];
    if a.muacc < 0 then
      Outcome(s.(heap := heap, nextShell := shell + 1, errno := ENOMEM), a.muacc, [InitContext(shell)])
    else
      assert fd in t ==> t[fd] in s.heap by {
        assert Entries(s.table) == t;
      }
      var u := Insert(t, heap, fd, shell, a.release);
      assert Valid(s) ==> Valid(s.(table := Some(u.table), heap := u.heap, nextShell := shell + 1)) by {
        if Valid(s) {
          assert Entries(s.table) == t;
          forall k | k in u.table ensures u.table[k] in u.heap {
            if k != fd {
              assert t[k] in s.heap;
              assert fd in t ==> t[k] != t[fd];
            }
          }
        }
      }
      Outcome(s.(table := Some(u.table), heap := u.heap, nextShell := shell + 1),
              a.muacc, [InitContext(shell)] + Disposals(u.disposed))
  }

  /**
   * setsockopt(): a descriptor the table knows is handed to muacc_setsockopt,
   * whose status is returned as it is; any other descriptor goes to the real
   * setsockopt. The table and the flags are the same afterwards either way.
   */
  function SetSockOptHook(s: State, fd: Fd, level: int, optname: int, optlen: int, a: Answers): (out: Outcome)
    ensures CacheFilled(s, out.st, setsockopt, a.dl)
    ensures ResolveFails(s, setsockopt, a.dl) ==> Refused(s, out, setsockopt)
    ensures Nested(s, setsockopt, a.dl) ==> Forwarded(s, out, SetSockOpt(fd, level, optname, optlen), a)
    ensures Runs(s, setsockopt, a.dl) && Lookup(s.table, fd).None? ==>
              Forwarded(s, out, SetSockOpt(fd, level, optname, optlen), a)
    ensures Runs(s, setsockopt, a.dl) && Lookup(s.table, fd).Some? ==>
              Delegated(s, out, SetSockOpt(fd, level, optname, optlen), Lookup(s.table, fd).value, a)
    ensures out.st.table == s.table && out.st.inProgress == s.inProgress
    ensures Valid(s) ==> Valid(out.st)
  {
    var c := SetSockOpt(fd, level, optname, optlen);
    var r := Resolve(s, setsockopt, a.dl);
    if r.ret != 0 then r
    else if setsockopt in s.inProgress then Outcome(r.st, a.libc, r.ext + [Real(c)])
    else
      match Lookup(s.table, fd)
      case None => Outcome(r.st, a.libc, r.ext + [Real(c)])
      case Some(shell) =>
        assert Valid(s) ==> Valid(r.st.(heap := s.heap[shell := a.ctxAfter])) by {
          if Valid(s) { CtxWriteValid(r.st, fd, a.ctxAfter); }
        }
        Outcome(r.st.(heap := s.heap[shell := a.ctxAfter]), a.muacc, r.ext + [Delegate(c, shell)])
  }

  /** getsockopt(): as setsockopt, with muacc_getsockopt and the real getsockopt. */
  function GetSockOptHook(s: State, fd: Fd, level: int, optname: int, a: Answers): (out: Outcome)
    ensures CacheFilled(s, out.st, getsockopt, a.dl)
    ensures ResolveFails(s, getsockopt, a.dl) ==> Refused(s, out, getsockopt)
    ensures Nested(s, getsockopt, a.dl) ==> Forwarded(s, out, GetSockOpt(fd, level, optname), a)
    ensures Runs(s, getsockopt, a.dl) && Lookup(s.table, fd).None? ==>
              Forwarded(s, out, GetSockOpt(fd, level, optname), a)
    ensures Runs(s, getsockopt, a.dl) && Lookup(s.table, fd).Some? ==>
              Delegated(s, out, GetSockOpt(fd, level, optname), Lookup(s.table, fd).value, a)
    ensures out.st.table == s.table && out.st.inProgress == s.inProgress
    ensures Valid(s) ==> Valid(out.st)
  {
    var c := GetSockOpt(fd, level, optname);
    var r := Resolve(s, getsockopt, a.dl);
    if r.ret != 0 then r
    else if getsockopt in s.inProgress then Outcome(r.st, a.libc, r.ext + [Real(c)])
    else
      match Lookup(s.table, fd)
      case None => Outcome(r.st, a.libc, r.ext + [Real(c)])
      case Some(shell) =>
        assert Valid(s) ==> Valid(r.st.(heap := s.heap[shell := a.ctxAfter])) by {
          if Valid(s) { CtxWriteValid(r.st, fd, a.ctxAfter); }
        }
        Outcome(r.st.(heap := s.heap[shell := a.ctxAfter]), a.muacc, r.ext + [Delegate(c, shell)])
  }

  /**
   * getaddrinfo(): looks up descriptor 1 whatever is being resolved. A miss
   * forwards to the real getaddrinfo and returns with the flag still set.
   */
  function GetAddrInfoHook(s: State, node: string, service: string, a: Answers): (out: Outcome)
    ensures CacheFilled(s, out.st, getaddrinfo, a.dl)
    ensures ResolveFails(s, getaddrinfo, a.dl) ==> Refused(s, out, getaddrinfo)
    ensures Nested(s, getaddrinfo, a.dl) ==> Forwarded(s, out, GetAddrInfo(node, service), a)
    ensures Runs(s, getaddrinfo, a.dl) && Lookup(s.table, ADDRINFO_KEY).None? ==>
              && out.ret == a.libc
              && out.ext == Lookups(s, getaddrinfo) + [Real(GetAddrInfo(node, service))]
              && out.st == s.(orig := out.st.orig, inProgress := s.inProgress + {getaddrinfo})
    ensures Runs(s, getaddrinfo, a.dl) && Lookup(s.table, ADDRINFO_KEY).Some? ==>
              Delegated(s, out, GetAddrInfo(node, service), Lookup(s.table, ADDRINFO_KEY).value, a)
    ensures out.st.table == s.table
    ensures Valid(s) ==> Valid(out.st)
  {
    var c := GetAddrInfo(node, service);
    var r := Resolve(s, getaddrinfo, a.dl);
    if r.ret != 0 then r
    else if getaddrinfo in s.inProgress then Outcome(r.st, a.libc, r.ext + [Real(c)])
    else
      match Lookup(s.table, ADDRINFO_KEY)
      case None =>
        Outcome(r.st.(inProgress := s.inProgress + {getaddrinfo}), a.libc, r.ext + [Real(c)])
      case Some(shell) =>
        assert Valid(s) ==> Valid(r.st.(heap := s.heap[shell := a.ctxAfter])) by {
          if Valid(s) { CtxWriteValid(r.st, ADDRINFO_KEY, a.ctxAfter); }
        }
        Outcome(r.st.(heap := s.heap[shell := a.ctxAfter]), a.muacc, r.ext + [Delegate(c, shell)])
  }

  /** bind(): never consults the table; returns exactly the real bind's result. */
  function BindHook(s: State, fd: Fd, a: Answers): (out: Outcome)
    ensures CacheFilled(s, out.st, bind, a.dl)
    ensures ResolveFails(s, bind, a.dl) ==> Refused(s, out, bind)
    ensures !ResolveFails(s, bind, a.dl) ==> Forwarded(s, out, Bind(fd), a)
    ensures Valid(s) ==> Valid(out.st)
  {
    var r := Resolve(s, bind, a.dl);
    if r.ret != 0 then r
    else Outcome(r.st, a.libc, r.ext + [Real(Bind(fd))])
  }

  /**
   * connect(): a known descriptor is handed to muacc_connect; a miss forwards
   * to the real connect and returns with the flag still set.
   */
  function ConnectHook(s: State, fd: Fd, a: Answers): (out: Outcome)
    ensures CacheFilled(s, out.st, connect, a.dl)
    ensures ResolveFails(s, connect, a.dl) ==> Refused(s, out, connect)
    ensures Nested(s, connect, a.dl) ==> Forwarded(s, out, Connect(fd), a)
    ensures Runs(s, connect, a.dl) && Lookup(s.table, fd).None? ==>
              && out.ret == a.libc
              && out.ext == Lookups(s, connect) + [Real(Connect(fd))]
              && out.st == s.(orig := out.st.orig, inProgress := s.inProgress + {connect})
    ensures Runs(s, connect, a.dl) && Lookup(s.table, fd).Some? ==>
              Delegated(s, out, Connect(fd), Lookup(s.table, fd).value, a)
    ensures out.st.table == s.table
    ensures Valid(s) ==> Valid(out.st)
  {
    var c := Connect(fd);
    var r := Resolve(s, connect, a.dl);
    if r.ret != 0 then r
    else if connect in s.inProgress then Outcome(r.st, a.libc, r.ext + [Real(c)])
    else
      match Lookup(s.table, fd)
      case None =>
        Outcome(r.st.(inProgress := s.inProgress + {connect}), a.libc, r.ext + [Real(c)])
      case Some(shell) =>
        assert Valid(s) ==> Valid(r.st.(heap := s.heap[shell := a.ctxAfter])) by {
          if Valid(s) { CtxWriteValid(r.st, fd, a.ctxAfter); }
        }
        Outcome(r.st.(heap := s.heap[shell := a.ctxAfter]), a.muacc, r.ext + [Delegate(c, shell)])
  }

  /**
   * close(): if the table exists, the entry for fd is removed (its context
   * going through st_free_ctx) whether or not there was one; then the real
   * close is called and its result returned.
   */
  function CloseHook(s: State, fd: Fd, a: Answers): (out: Outcome)
    requires TableLive(s.table, s.heap)
    ensures CacheFilled(s, out.st, close, a.dl)
    ensures ResolveFails(s, close, a.dl) ==> Refused(s, out, close)
    ensures Nested(s, close, a.dl) ==> Forwarded(s, out, Close(fd), a)
    ensures Runs(s, close, a.dl) ==>
              && out.ret == a.libc
              && out.st.table == (if s.table.Some? then Some(Entries(s.table) - {fd}) else None)
              && out.st.inProgress == s.inProgress
              && out.st.errno == s.errno && out.st.nextShell == s.nextShell
              && |out.ext| > 0 && out.ext[|out.ext| - 1] == Real(Close(fd))
    ensures Runs(s, close, a.dl) && Lookup(s.table, fd).None? ==>
              Forwarded(s, out, Close(fd), a)
    ensures Runs(s, close, a.dl) && Lookup(s.table, fd).Some? ==>
              var d := FreeCtx(s.heap, Lookup(s.table, fd).value, a.release);
              && out.st.heap == d.heap
              && out.ext == Lookups(s, close) + [Dispose(d.disposal), Real(Close(fd))]
    ensures Valid(s) ==> Valid(out.st)
  {
    var c := Close(fd);
    var r := Resolve(s, close, a.dl);
    if r.ret != 0 then r
    else if close in s.inProgress then Outcome(r.st, a.libc, r.ext + [Real(c)])
    else if s.table.None? then Outcome(r.st, a.libc, r.ext + [Real(c)])
    else
      assert Entries(s.table) == s.table.value;
      assert fd in s.table.value ==> s.table.value[fd] in s.heap;
      var u := Remove(s.table.value, s.heap, fd, a.release);
      assert u.table == s.table.value - {fd};
      assert Valid(s) ==> TableLive(Some(u.table), u.heap) by {
        if Valid(s) && fd in s.table.value {
          forall k | k in u.table ensures u.table[k] in u.heap {
            assert s.table.value[k] != s.table.value[fd];
          }
        }
      }
      Outcome(r.st.(table := Some(u.table), heap := u.heap), a.libc, r.ext + Disposals(u.disposed) + [Real(c)])
  }

  /** One intercepted call with the answers the foreign code gives during it. */
  datatype Event = Event(call: Call, answers: Answers)

  function Step(s: State, e: Event): (out: Outcome)
    requires Valid(s)
    ensures Valid(out.st)
    ensures CacheFilled(s, out.st, HookOf(e.call), e.answers.dl)
    ensures forall g | g != HookOf(e.call) :: g in out.st.inProgress <==> g in s.inProgress
    ensures Nested(s, HookOf(e.call), e.answers.dl) ==> Forwarded(s, out, e.call, e.answers)
    // entries appear only through socket()
    ensures forall fd | fd in Entries(out.st.table) && fd !in Entries(s.table) ::
              e.call.Socket? && Runs(s, socket, e.answers.dl) && out.ret == fd
    // an entry leaves only through close(), and is given another shell only
    // by a socket() that returned its descriptor
    ensures forall fd | fd in Entries(s.table) ::
              if fd !in Entries(out.st.table) then
                e.call == Close(fd) && Runs(s, close, e.answers.dl)
              else
                Entries(out.st.table)[fd] != Entries(s.table)[fd] ==>
                  e.call.Socket? && Runs(s, socket, e.answers.dl) && out.ret == fd
  {
    var a := e.answers;
    match e.call
    case Socket(domain, kind, protocol) => SocketHook(s, domain, kind, protocol, a)
    case SetSockOpt(fd, level, optname, optlen) => SetSockOptHook(s, fd, level, optname, optlen, a)
    case GetSockOpt(fd, level, optname) => GetSockOptHook(s, fd, level, optname, a)
    case GetAddrInfo(node, service) => GetAddrInfoHook(s, node, service, a)
    case Bind(fd) => BindHook(s, fd, a)
    case Connect(fd) => ConnectHook(s, fd, a)
    case Close(fd) => CloseHook(s, fd, a)
  }

  /** One call of a run: the state it started from and its outcome. */
  datatype Taken = Taken(before: State, out: Outcome)

  datatype Trace = Trace(final: State, steps: seq<Taken>)

  /**
   * A single-threaded run of calls from state `s`: each call starts from the
   * state the previous one left, and every state reached is valid. What each
   * step of the trace is, RunStepAt states.
   */
  function Run(s: State, evs: seq<Event>): (t: Trace)
    requires Valid(s)
    decreases |evs|
    ensures Valid(t.final)
    ensures |t.steps| == |evs|
    ensures |evs| == 0 ==> t.final == s
    ensures |evs| > 0 ==> t.final == t.steps[|evs| - 1].out.st
  {
    if evs == [] then Trace(s, [])
    else
      var o := Step(s, evs[0]);
      var rest := Run(o.st, evs[1..]);
      Trace(rest.final, [Taken(s, o)] + rest.steps)
  }

  /** The i-th call of a run is one Step from a valid state: the start state
      for the first call, the state the previous call left for the others. */
  lemma {:induction false} RunStepAt(s: State, evs: seq<Event>, i: nat)
    requires Valid(s) && i < |evs|
    decreases i
    ensures var t := Run(s, evs);
            && Valid(t.steps[i].before)
            && t.steps[i].out == Step(t.steps[i].before, evs[i])
            && (i == 0 ==> t.steps[i].before == s)
            && (i > 0 ==> t.steps[i].before == t.steps[i - 1].out.st)
  {
    var o := Step(s, evs[0]);
    var rest := Run(o.st, evs[1..]);
    var t := Run(s, evs);
    assert t.steps == [Taken(s, o)] + rest.steps;
    if i == 0 {
      assert t.steps[0] == Taken(s, o);
    } else {
      RunStepAt(o.st, evs[1..], i - 1);
      assert t.steps[i] == rest.steps[i - 1] && evs[i] == evs[1..][i - 1];
      assert t.steps[i].out == Step(t.steps[i].before, evs[i]);
      if i > 1 {
        assert t.steps[i - 1] == rest.steps[i - 2];
      }
    }
  }

  /** A pointer cached before a run is cached, unchanged, after it: the
      orig_* pointers are written only while NULL. */
  lemma {:induction false} RunKeepsCache(s: State, evs: seq<Event>)
    requires Valid(s)
    decreases |evs|
    ensures forall g | g in s.orig :: g in Run(s, evs).final.orig && Run(s, evs).final.orig[g] == s.orig[g]
  {
    if evs != [] {
      var o := Step(s, evs[0]);
      RunKeepsCache(o.st, evs[1..]);
    }
  }
}
