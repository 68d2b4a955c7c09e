/**
 * The library's process-wide state as the C code keeps it, updated in place:
 * the global socket_table, the heap of context shells, the orig_* pointers,
 * the static call_in_progress flag of each hook and errno. Every method follows
 * the statements of its C function and is proved to make exactly the
 * transition, return the value and make the foreign calls that the matching
 * function of module Hooks specifies.
 */
module Interposition {
  import opened Wrappers
  import opened Registry
  import opened Symbols
  import opened Hooks

  class Interposer {
    var table: Table
    var heap: Heap
    var orig: map<Hook, Addr>
    var inProgress: set<Hook>
    var errno: int
    var nextShell: Shell
    /** Every call the library has made into foreign code, oldest first. */
    ghost var calls: seq<Ext>

    function Abs(): State
      reads this
    {
      State(table, heap, orig, inProgress, errno, nextShell)
    }

    ghost predicate Valid()
      reads this
    {
      Hooks.Valid(Abs())
    }

    /** The state at load time: every global still NULL or false. */
    constructor ()
      ensures Valid()
      ensures Abs() == Init && calls == []
    {
      table := None;
      heap := map[];
      orig := map[];
      inProgress := {};
      errno := 0;
      nextShell := 0;
      calls := [];
      InitValid();
    }

    /** The call `get_orig_function(name, &orig_h)`, made while orig_h is NULL. */
    method LoadOrig(h: Hook, dl: DlSym) returns (status: int)
      requires h !in orig
      modifies this`orig, this`calls
      ensures var r := Resolve(old(Abs()), h, dl);
              orig == r.st.orig && status == r.ret && calls == old(calls) + r.ext
    {
      var lk := GetOrigFunction(Some(Name(h)), true, dl);
      calls := calls + [Dlsym(h)];
      orig := Store(orig, h, lk.stored);
      status := lk.status;
    }

    /** st_free_ctx on the context at `shell`. */
    method FreeCtxAt(shell: Shell, rel: ReleaseAnswer)
      requires shell in heap
      modifies this`heap, this`calls
      ensures var d := FreeCtx(old(heap), shell, rel);
              heap == d.heap && calls == old(calls) + [Dispose(d.disposal)]
    {
      if heap[shell].None? {
        heap := heap - {shell};
        calls := calls + [Dispose(Freed(shell))];
      } else {
        // a positive usage count is only reported; the shell stays allocated
        calls := calls + [Dispose(Released(shell, rel.count))];
        heap := heap[shell := rel.ctxAfter];
      }
    }

    /** g_hash_table_insert on socket_table. */
    method TableInsert(fd: Fd, shell: Shell, rel: ReleaseAnswer)
      requires table.Some? && (fd in table.value ==> table.value[fd] in heap)
      modifies this`table, this`heap, this`calls
      ensures var u := Insert(old(table.value), old(heap), fd, shell, rel);
              table == Some(u.table) && heap == u.heap && calls == old(calls) + Disposals(u.disposed)
    {
      var t := table.value;
      if fd in t {
        FreeCtxAt(t[fd], rel);
      }
      table := Some(t[fd := shell]);
    }

    /** g_hash_table_remove on socket_table. */
    method TableRemove(fd: Fd, rel: ReleaseAnswer) returns (removed: bool)
      requires table.Some? && (fd in table.value ==> table.value[fd] in heap)
      modifies this`table, this`heap, this`calls
      ensures removed == (fd in old(table.value))
      ensures var u := Remove(old(table.value), old(heap), fd, rel);
              table == Some(u.table) && heap == u.heap && calls == old(calls) + Disposals(u.disposed)
    {
      var t := table.value;
      removed := fd in t;
      if removed {
        FreeCtxAt(t[fd], rel);
        table := Some(t - {fd});
      }
    }

    /** The part of socket() that runs once the real socket returned fd >= 0. */
    method NewContext(fd: Fd, a: Answers)
      requires table.Some? && TableLive(table, heap)
      modifies this
      ensures var out := Hooks.NewContext(old(Abs()), fd, a);
              Abs() == out.st && calls == old(calls) + out.ext
    {
      var shell := nextShell;
      nextShell := nextShell + 1;
      heap := heap[shell := None];
      calls := calls + [InitContext(shell)];
      heap := heap[shell := a.ctxAfter];
      assert heap == old(heap)[shell := a.ctxAfter];
      if a.muacc < 0 {
        errno := ENOMEM;
      } else {
        assert Entries(table) == table.value;
        TableInsert(fd, shell, a.release);
      }
    }

    method Socket(domain: int, kind: int, protocol: int, a: Answers) returns (r: int)
      requires Valid()
      modifies this
      ensures var out := SocketHook(old(Abs()), domain, kind, protocol, a);
              Abs() == out.st && r == out.ret && calls == old(calls) + out.ext
      ensures Valid()
    {
      if socket !in orig {
        r := LoadOrig(socket, a.dl);
        if r != 0 {
          inProgress := inProgress - {socket};
          return;
        }
      }
      if socket in inProgress {
        calls := calls + [Real(Call.Socket(domain, kind, protocol))];
        r := a.libc;
        return;
      }
      inProgress := inProgress + {socket};
      r := CreateSocket(domain, kind, protocol, a);
      inProgress := inProgress - {socket};
    }

    /** The statements of socket() between setting and clearing its flag. */
    method CreateSocket(domain: int, kind: int, protocol: int, a: Answers) returns (r: int)
      requires TableLive(table, heap)
      modifies this
      ensures var out := Hooks.CreateSocket(old(Abs()), domain, kind, protocol, a);
              Abs() == out.st && r == out.ret && calls == old(calls) + out.ext
    {
      if table.None? {
        table := Some(map[]);
      }
      assert table.value == Entries(old(table));
      calls := calls + [Real(Call.Socket(domain, kind, protocol))];
      r := a.libc;
      if r >= 0 {
        NewContext(r, a);
      }
    }

    method SetSockOpt(fd: Fd, level: int, optname: int, optlen: int, a: Answers) returns (r: int)
      requires Valid()
      modifies this
      ensures var out := SetSockOptHook(old(Abs()), fd, level, optname, optlen, a);
              Abs() == out.st && r == out.ret && calls == old(calls) + out.ext
      ensures Valid()
    {
      var c := Call.SetSockOpt(fd, level, optname, optlen);
      if setsockopt !in orig {
        r := LoadOrig(setsockopt, a.dl);
        if r != 0 {
          return;
        }
      }
      if setsockopt in inProgress {
        calls := calls + [Real(c)];
        r := a.libc;
        return;
      }
      inProgress := inProgress + {setsockopt};
      var ctx := Lookup(table, fd);
      if ctx.None? {
        inProgress := inProgress - {setsockopt};
        calls := calls + [Real(c)];
        r := a.libc;
        return;
      }
      calls := calls + [Delegate(c, ctx.value)];
      heap := heap[ctx.value := a.ctxAfter];
      r := a.muacc;
      inProgress := inProgress - {setsockopt};
    }

    method GetSockOpt(fd: Fd, level: int, optname: int, a: Answers) returns (r: int)
      requires Valid()
      modifies this
      ensures var out := GetSockOptHook(old(Abs()), fd, level, optname, a);
              Abs() == out.st && r == out.ret && calls == old(calls) + out.ext
      ensures Valid()
    {
      var c := Call.GetSockOpt(fd, level, optname);
      if getsockopt !in orig {
        r := LoadOrig(getsockopt, a.dl);
        if r != 0 {
          return;
        }
      }
      if getsockopt in inProgress {
        calls := calls + [Real(c)];
        r := a.libc;
        return;
      }
      inProgress := inProgress + {getsockopt};
      var ctx := Lookup(table, fd);
      if ctx.None? {
        inProgress := inProgress - {getsockopt};
        calls := calls + [Real(c)];
        r := a.libc;
        return;
      }
      calls := calls + [Delegate(c, ctx.value)];
      heap := heap[ctx.value := a.ctxAfter];
      r := a.muacc;
      inProgress := inProgress - {getsockopt};
    }

    method GetAddrInfo(node: string, service: string, a: Answers) returns (r: int)
      requires Valid()
      modifies this
      ensures var out := GetAddrInfoHook(old(Abs()), node, service, a);
              Abs() == out.st && r == out.ret && calls == old(calls) + out.ext
      ensures Valid()
    {
      var c := Call.GetAddrInfo(node, service);
      if getaddrinfo !in orig {
        r := LoadOrig(getaddrinfo, a.dl);
        if r < 0 {
          return;
        }
      }
      if getaddrinfo in inProgress {
        calls := calls + [Real(c)];
        r := a.libc;
        return;
      }
      inProgress := inProgress + {getaddrinfo};
      var ctx := Lookup(table, ADDRINFO_KEY);
      if ctx.None? {
        // returns with call_in_progress still true
        calls := calls + [Real(c)];
        r := a.libc;
        return;
      }
      calls := calls + [Delegate(c, ctx.value)];
      heap := heap[ctx.value := a.ctxAfter];
      r := a.muacc;
      inProgress := inProgress - {getaddrinfo};
    }

    method Bind(fd: Fd, a: Answers) returns (r: int)
      requires Valid()
      modifies this
      ensures var out := BindHook(old(Abs()), fd, a);
              Abs() == out.st && r == out.ret && calls == old(calls) + out.ext
      ensures Valid()
    {
      var c := Call.Bind(fd);
      if bind !in orig {
        r := LoadOrig(bind, a.dl);
        if r < 0 {
          return;
        }
      }
      if bind in inProgress {
        calls := calls + [Real(c)];
        r := a.libc;
        return;
      }
      inProgress := inProgress + {bind};
      calls := calls + [Real(c)];
      r := a.libc;
      inProgress := inProgress - {bind};
    }

    method Connect(fd: Fd, a: Answers) returns (r: int)
      requires Valid()
      modifies this
      ensures var out := ConnectHook(old(Abs()), fd, a);
              Abs() == out.st && r == out.ret && calls == old(calls) + out.ext
      ensures Valid()
    {
      var c := Call.Connect(fd);
      if connect !in orig {
        r := LoadOrig(connect, a.dl);
        if r < 0 {
          return;
        }
      }
      if connect in inProgress {
        calls := calls + [Real(c)];
        r := a.libc;
        return;
      }
      inProgress := inProgress + {connect};
      var ctx := Lookup(table, fd);
      if ctx.None? {
        // returns with call_in_progress still true
        calls := calls + [Real(c)];
        r := a.libc;
        return;
      }
      calls := calls + [Delegate(c, ctx.value)];
      heap := heap[ctx.value := a.ctxAfter];
      r := a.muacc;
      inProgress := inProgress - {connect};
    }

    method Close(fd: Fd, a: Answers) returns (r: int)
      requires Valid()
      modifies this
      ensures var out := CloseHook(old(Abs()), fd, a);
              Abs() == out.st && r == out.ret && calls == old(calls) + out.ext
      ensures Valid()
    {
      var c := Call.Close(fd);
      if close !in orig {
        r := LoadOrig(close, a.dl);
        if r < 0 {
          return;
        }
      }
      if close in inProgress {
        calls := calls + [Real(c)];
        r := a.libc;
        return;
      }
      inProgress := inProgress + {close};
      if table.Some? {
        assert Entries(table) == table.value;
        var removed := TableRemove(fd, a.release);
      }
      calls := calls + [Real(c)];
      r := a.libc;
      inProgress := inProgress - {close};
    }
  }
}
