# libintents interposition layer — a Dafny model

libintents is an `LD_PRELOAD` library. It interposes on seven socket functions:
`socket`, `setsockopt`, `getsockopt`, `getaddrinfo`, `bind`, `connect` and `close`.
Each descriptor that `socket()` creates gets a `muacc_context_t` in a
process-wide GLib hash table (`socket_table`) if `muacc_init_context`
succeeds. `setsockopt`, `getsockopt` and `connect` on a descriptor in the table
go to the muacc client library instead of the real libc function. So does
`getaddrinfo` when descriptor 1 is in the table. The exception is a hook
whose in-progress flag is already set: it forwards (see Findings for how
`getaddrinfo` and `connect` leave theirs set). `bind` always goes to the
real `bind`. `close` removes the descriptor's entry and then calls the real
`close`.

The model has three parts:

- **The registry.** Module `Registry` (`registry.dfy`) holds the table, which is
  `None` until the first intercepted `socket()` creates it. It also holds the
  heap of context shells, each with its `ctx->ctx` field. It defines lookup,
  insert and remove, with GLib's replace-and-destroy behaviour on a key that is
  already present, and the value destructor `st_free_ctx`.
- **The symbol resolver.** Module `Symbols` (`symbols.dfy`) models
  `get_orig_function` and the `orig_*` pointer cache.
- **The hooks.** Module `Hooks` (`hooks.dfy`) gives one pure transition function
  per hook over the whole process state. The state holds the table, the heap,
  the cached pointers, the per-hook static `call_in_progress` flags and errno.
  Each function returns three things: the new state, the value the hook
  returns, and a log of the calls it made. The log holds the calls into
  foreign code (dlsym, the real function, `muacc_init_context`, the muacc
  operations). It also holds each run of the library's own value destructor
  `st_free_ctx`, which calls `muacc_release_context` on a context that is not
  empty.

Everything the foreign code answers during one call is an `Answers` argument.
That covers the dlsym outcome, the real function's result, the muacc status,
the new `ctx->ctx` and what `muacc_release_context` returns. `Step` and `Run`
chain the hooks over a sequence of single-threaded calls.

Module `Interposition` (`interposer.dfy`) is the imperative form of the same
code. Class `Interposer` holds the globals as mutable fields and has one method
per C function, written statement by statement. Each of the seven hook methods
is proved to produce exactly the state, return value and call log that its
function in `Hooks` specifies, and to keep the invariant `Valid`. The helper
methods are proved equal to their own specifications:

- `LoadOrig` to `Hooks.Resolve`;
- `FreeCtxAt`, `TableInsert` and `TableRemove` to `Registry.FreeCtx`, `Insert`
  and `Remove`;
- `NewContext` and `CreateSocket` to `Hooks.NewContext` and `Hooks.CreateSocket`.

The helpers do not themselves promise `Valid`; they are called from a hook
method, in a state the hook's proof controls. The invariant states four things:

- a flag is only set when the pointer is cached;
- the table points only to live shells;
- no two descriptors share a shell;
- the next shell address is fresh.

Module `Properties` (`properties.dfy`) proves what runs of calls do.
Module `ScopedGuard` (`scoped_guard.dfy`) holds the corrected `getaddrinfo` and
`connect` described under Findings.

Some behaviours of the code are easy to misread; the model states them as the
code has them:

- **Failed context init.** When `muacc_init_context` fails, `socket()` only sets
  errno to ENOMEM (libintents/libintents.c:141-145). It does not insert the
  context, so the table is left as it was. A descriptor without an entry still
  has none. A stale entry already stored under the descriptor stays, for
  example after a close that did not go through the `close` symbol, so later
  option calls on the new socket reach the old context. The fresh shell stays
  allocated with nothing pointing to it.
- **`st_free_ctx` and usage counts.** `st_free_ctx` frees only a context whose
  `ctx` field is NULL (libintents/libintents.c:506-510). After
  `muacc_release_context` it never frees the shell, whatever count comes back
  (libintents/libintents.c:512-518).
- **Insert on a present descriptor.** `socket()` calls `g_hash_table_insert`
  without checking for an entry (libintents/libintents.c:152). GLib then
  replaces the entry and passes the old context to `st_free_ctx`.
  `Registry.Insert` and `Hooks.NewContext` model that.
- **Releasing the flag.** `socket`, `setsockopt`, `getsockopt`, `bind` and
  `close` clear their flag on every exit path that runs the hook's body
  (libintents/libintents.c:157, 191, 202, 236, 247, 328, 418); `socket` also
  clears it when the lookup of the real function fails
  (libintents/libintents.c:105). `getaddrinfo` and `connect`
  do not on a lookup miss (libintents/libintents.c:282, 362). See Findings.

## Model

| member | source | states |
|---|---|---|
| Registry.Lookup | libintents/libintents.c:187-188 | finds a context exactly when the table exists and holds the descriptor, and then returns the shell stored for it; a table never created finds nothing |
| Registry.FreeCtx | libintents/libintents.c:495-519 | a context whose ctx field is NULL is freed, and its shell leaves the heap; otherwise muacc_release_context is called once, the count it returns is reported, and the shell stays allocated; no other shell changes |
| Registry.Insert | libintents/libintents.c:150-152 | afterwards the table holds the old keys plus the descriptor, which maps to the new shell; other entries are kept; a context replaced under the same key goes through st_free_ctx, and nothing is disposed otherwise |
| Registry.Remove | libintents/libintents.c:399-410 | afterwards the table holds the old keys minus the descriptor, and every other entry is kept; a removed context goes through st_free_ctx, and nothing is disposed when the key was absent |
| Symbols.GetOrigFunction | libintents/libintents.c:427-452 | the status is 0 or -1; it is 0 exactly when the name and out-pointer are non-NULL and dlerror reports nothing; on success the out-pointer holds the symbol's address; a NULL argument writes nothing; after a dl error the pointer holds NULL |
| Symbols.Store | libintents/libintents.c:47-53 | only the resolved hook's orig_* pointer changes; a non-NULL address becomes cached; a NULL leaves it uncached |
| Hooks.InitValid | libintents/libintents.c:47-53 | the load-time state (NULL table, NULL pointers, every flag false) satisfies the invariant, and its table is empty |
| Hooks.Resolve | libintents/libintents.c:98-108 | each hook's first step: only an uncached pointer is looked up; the status is 0 exactly when the pointer is or becomes available; nothing but the cache changes |
| Hooks.SocketHook | libintents/libintents.c:91-159 | a failed lookup returns -1 and a nested call only forwards; otherwise the real result is returned, the table exists afterwards, and the descriptor gains the fresh context exactly when the real socket and muacc_init_context both succeed; errno becomes ENOMEM exactly when init fails; the dlsym lookup, the real socket and muacc_init_context come in that order; the invariant is kept |
| Hooks.CreateSocket | libintents/libintents.c:123-155 | the part of socket() run with its flag set: the real result is returned, the table exists afterwards, and the descriptor gains the fresh context exactly when the real socket and muacc_init_context both succeed; errno becomes ENOMEM exactly when init fails; a descriptor's state and foreign calls after the real socket are those of NewContext, including the st_free_ctx of a context replaced under it; flags and cached pointers are unchanged |
| Hooks.NewContext | libintents/libintents.c:138-154 | a fresh shell is initialised; on init failure the table is unchanged, errno is ENOMEM and only the heap grows; on success the descriptor maps to the fresh shell, and a context it mapped to before goes through st_free_ctx, with the heap and foreign calls of that insertion |
| Hooks.SetSockOptHook | libintents/libintents.c:166-204 | a failed lookup is refused; a nested call or an unknown descriptor goes to the real setsockopt with its result returned; a known descriptor gets muacc_setsockopt's status and only its context changes; the table and flags are unchanged |
| Hooks.GetSockOptHook | libintents/libintents.c:211-249 | as setsockopt, with getsockopt and muacc_getsockopt |
| Hooks.GetAddrInfoHook | libintents/libintents.c:254-296 | descriptor 1 is looked up whatever the query; a hit gets muacc_getaddrinfo's status; a miss returns the real getaddrinfo's result and leaves the getaddrinfo flag set; the table is unchanged |
| Hooks.BindHook | libintents/libintents.c:301-330 | unless the lookup fails, bind only forwards: it returns the real bind's result and changes nothing but the cache |
| Hooks.ConnectHook | libintents/libintents.c:335-377 | a known descriptor gets muacc_connect's status; a miss returns the real connect's result and leaves the connect flag set; the table is unchanged |
| Hooks.CloseHook | libintents/libintents.c:379-420 | when the hook runs, the descriptor is removed from an existing table, its context goes through st_free_ctx just before the real close, the real close's result is returned, and the flags are unchanged |
| Hooks.Step | libintents/libintents.c:91-420 | one intercepted call keeps the invariant and touches only its own hook's flag and pointer; a nested call only forwards; a descriptor enters the table only through a running socket() that returned it, and leaves only through a running close() of it; an entry that stays is given another shell only by a running socket() that returned its descriptor (the replacing insert) |
| Hooks.Run | libintents/libintents.c:91-420 | a run of calls has one step per call, ends in the state its last call left, and its final state satisfies the invariant (with RunStepAt, every state it reaches does) |
| Hooks.RunStepAt | libintents/libintents.c:91-420 | the i-th call of a run is one Step from a valid state: the start state for the first call, the state the previous call left for the others |
| Hooks.RunKeepsCache | libintents/libintents.c:98-108 | an orig_* pointer cached before a run is cached, unchanged, after it |
| Properties.FlagKeptByStep | libintents/libintents.c:264-268 | a set flag survives any call, and a call of that hook only forwards to the real function |
| Properties.FlagSetBefore | libintents/libintents.c:264-283 | a flag set at the start of a run is still set before every call of the run |
| Properties.FlagStaysSet | libintents/libintents.c:345-362 | once a hook's flag is set between calls, it stays set for good, and every later call of that hook only forwards |
| Properties.OptionCallsKeepTable | libintents/libintents.c:166-249 | any sequence of setsockopt and getsockopt calls leaves the table and the flags as they were |
| Properties.SocketRegisters | libintents/libintents.c:130-154 | a successful socket() on a descriptor absent from the table adds exactly that descriptor, mapped to the fresh shell, and keeps the flags |
| Properties.CloseUnregisters | libintents/libintents.c:399-419 | close() on a registered descriptor removes exactly that entry, disposes of its context through st_free_ctx just before the real close, and returns the real result |
| Properties.SocketUseCloseRestoresTable | libintents/libintents.c:91-420 | a socket created, used with any option calls and then closed leaves the table and flags as they were, and its own context is the one disposed of at close |
| Properties.GetAddrInfoStuckWitness | libintents/libintents.c:279-283 | from load time: getaddrinfo misses, socket() registers descriptor 1, and the next getaddrinfo still goes to the real function without reaching muacc_getaddrinfo |
| Properties.ConnectStuckWitness | libintents/libintents.c:359-363 | from load time: connect(3) misses, socket() registers 3, and the next connect(3) still goes to the real connect |
| Interposition.Interposer.constructor | libintents/libintents.c:47-53 | the globals start as the load-time state, which satisfies the invariant |
| Interposition.Interposer.LoadOrig | libintents/libintents.c:427-452 | the in-place lookup updates the pointer and returns the status exactly as Hooks.Resolve specifies |
| Interposition.Interposer.FreeCtxAt | libintents/libintents.c:495-519 | st_free_ctx in place: the heap and call log change as Registry.FreeCtx specifies |
| Interposition.Interposer.TableInsert | libintents/libintents.c:150-152 | the in-place insert leaves the table and heap as Registry.Insert specifies |
| Interposition.Interposer.TableRemove | libintents/libintents.c:399-410 | the in-place remove reports whether the key was present, as g_hash_table_remove does, and leaves the table and heap as Registry.Remove specifies |
| Interposition.Interposer.NewContext | libintents/libintents.c:138-154 | context creation in place matches Hooks.NewContext |
| Interposition.Interposer.Socket | libintents/libintents.c:91-159 | the C socket() in place: state, result and foreign calls are those of Hooks.SocketHook, and the invariant is kept |
| Interposition.Interposer.CreateSocket | libintents/libintents.c:123-155 | the statements between setting and clearing socket()'s flag, in place, yield exactly Hooks.CreateSocket's state, result and foreign calls |
| Interposition.Interposer.SetSockOpt | libintents/libintents.c:166-204 | the C setsockopt() in place matches Hooks.SetSockOptHook and keeps the invariant |
| Interposition.Interposer.GetSockOpt | libintents/libintents.c:211-249 | the C getsockopt() in place matches Hooks.GetSockOptHook and keeps the invariant |
| Interposition.Interposer.GetAddrInfo | libintents/libintents.c:254-296 | the C getaddrinfo() in place, early return on a miss included, matches Hooks.GetAddrInfoHook and keeps the invariant |
| Interposition.Interposer.Bind | libintents/libintents.c:301-330 | the C bind() in place matches Hooks.BindHook and keeps the invariant |
| Interposition.Interposer.Connect | libintents/libintents.c:335-377 | the C connect() in place, early return on a miss included, matches Hooks.ConnectHook and keeps the invariant |
| Interposition.Interposer.Close | libintents/libintents.c:379-420 | the C close() in place matches Hooks.CloseHook and keeps the invariant |
| ScopedGuard.GetAddrInfoScoped | libintents/libintents.c:254-296 | getaddrinfo with the flag released on the miss path: same results as the original, but the flags never change |
| ScopedGuard.ConnectScoped | libintents/libintents.c:335-377 | connect with the flag released on the miss path: same results as the original, but the flags never change |
| ScopedGuard.StepScoped | libintents/libintents.c:91-420 | with the corrected getaddrinfo and connect, no call changes any flag; every other call is the original step |
| ScopedGuard.RunScoped | libintents/libintents.c:91-420 | a run with the corrected hooks has one step per call, ends in the state its last call left, and keeps the invariant |
| ScopedGuard.RunScopedStepAt | libintents/libintents.c:91-420 | the i-th call of a corrected run is one StepScoped from the start state or from the state the previous call left |
| ScopedGuard.FlagsKept | libintents/libintents.c:273-294 | with the corrected hooks, the flags before every call are those the run started with |
| ScopedGuard.ScopedRunDelegates | libintents/libintents.c:273-294 | from a state with no flag set, no call is ever treated as nested, and every getaddrinfo or connect whose descriptor has a context gets the muacc client's status |
| ScopedGuard.GetAddrInfoScopedWitness | libintents/libintents.c:279-283 | on the run that exposes the stuck getaddrinfo flag, the corrected hook reaches muacc_getaddrinfo on descriptor 1's context |
| ScopedGuard.ConnectScopedWitness | libintents/libintents.c:359-363 | on the run that exposes the stuck connect flag, the corrected hook reaches muacc_connect |

## Left out

- Logging: the DLOG and fprintf diagnostics and `st_print_table` are left out. They write to stderr or stdout and change no state.
- `muacc_print_context` in `st_free_ctx` is left out. It is diagnostics only.
- Threads: the model is single-threaded. The static `call_in_progress` flags and `socket_table` are shared by all threads with no locking, and races between threads are not modelled.
- malloc failure is not modelled. Every malloc of a context shell or key succeeds, and the C code does not check for NULL either.
- errno: only the ENOMEM that `socket()` sets is modelled. Whatever the real functions and the muacc client do to errno is left out.
- Pointer arguments (option buffers, address structures, hints, result lists) are treated as opaque and forwarded untouched. They appear in the model only through the scalar arguments of `Call`.
- The muacc client (`muacc_init_context`, `muacc_setsockopt`, `muacc_getsockopt`, `muacc_getaddrinfo`, `muacc_connect`, `muacc_release_context`) is foreign code. Its answers are parameters (`Answers`, `ReleaseAnswer`), and its own state is not modelled.
- The real libc functions and dlsym/dlerror are foreign too, and their answers are parameters.
- Symbols.GetOrigFunction: dlsym returning NULL while dlerror reports no error is not modelled. A found symbol always has a non-NULL address (`Addr`).
- Registry.FreeCtx: the branch for a NULL context (a diagnostic and nothing else) is not modelled, because the table never holds a NULL value.
- `st_free_socknum` (libintents/libintents.c:482-493) frees the heap copy of the key. Keys are modelled as values, so it is folded into Registry.Insert and Registry.Remove.
- GLib's hash table internals (hashing, resizing) are not modelled. The table is a finite map.
- Properties.SocketUseCloseRestoresTable: it states which shell is disposed of at close, not the full st_free_ctx result. The full result is stated by Properties.CloseUnregisters.
- Reentry from inside a foreign call is not modelled. Each `Step` is atomic, and `Answers` carries only results, so no hook runs while the real function, dlsym or a muacc operation called by another hook is still running. Each hook's contract does cover a call that finds its own flag set (the nested case, libintents/libintents.c:109-116). But a run produces such a call only after `getaddrinfo` or `connect` left its flag set, so from the load-time state no run reaches the nested branch of `socket`, `setsockopt`, `getsockopt`, `bind` or `close`.
- Properties.OptionCallsKeepTable, Properties.SocketUseCloseRestoresTable, Properties.FlagStaysSet and ScopedGuard.ScopedRunDelegates hold for runs without such reentry. In the C code, a `muacc_setsockopt` that itself called `socket()` would add a table entry in the middle of an option call, because socket's flag is clear.
- Process teardown is not modelled: nothing frees the table or the contexts still in it when the process exits.

## Findings

| source | as written | input that shows it | evidently intended | confidence | as-written member | corrected member |
|---|---|---|---|---|---|---|
| libintents/libintents.c:279-283 | when descriptor 1 is not in the table, `getaddrinfo` returns the real result without clearing `call_in_progress`; every later `getaddrinfo` is then taken for a nested call and never reaches `muacc_getaddrinfo` | `getaddrinfo` before any socket exists, then `socket()` returning 1, then `getaddrinfo` again | the flag is cleared on this exit path as on all the others (as `setsockopt` does at line 191), so the second call reaches `muacc_getaddrinfo` | not executed | Properties.GetAddrInfoStuckWitness | ScopedGuard.GetAddrInfoScoped |
| libintents/libintents.c:359-363 | when the descriptor is not in the table, `connect` returns the real result without clearing `call_in_progress`; from then on every `connect`, on any descriptor, bypasses `muacc_connect` | `connect(3)` before descriptor 3 is registered, then `socket()` returning 3, then `connect(3)` again | the flag is cleared before forwarding, so a registered descriptor reaches `muacc_connect` | not executed | Properties.ConnectStuckWitness | ScopedGuard.ConnectScoped |
