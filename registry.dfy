/**
 * The socket table of libintents: a lazily created hash table from socket
 * descriptor to the muacc_context_t allocated for it, with the key and value
 * destructors st_free_socknum and st_free_ctx.
 *
 * A context is a heap object (a "shell") whose only field the layer reads is
 * ctx->ctx, the handle into the muacc client's own state. The table maps a
 * descriptor to the address of its shell; the heap maps each live shell to the
 * current value of its ctx field (None is NULL).
 */
module Registry {
  import opened Wrappers

  type Fd = int
  type Shell = nat
  type Handle = nat

  /** Live muacc_context_t shells and the value of their ctx field. */
  type Heap = map<Shell, Option<Handle>>

  /** socket_table: None until the first intercepted socket() creates it. */
  type Table = Option<map<Fd, Shell>>

  /** What muacc_release_context answers: the usage count it returns and the
      value it leaves in ctx->ctx. */
  datatype ReleaseAnswer = ReleaseAnswer(count: int, ctxAfter: Option<Handle>)

  /** What st_free_ctx did to one context. */
  datatype Disposal =
    | Freed(shell: Shell)                  // an empty context, freed on the spot
    | Released(shell: Shell, count: int)   // muacc_release_context was called

  datatype Disposed = Disposed(heap: Heap, disposal: Disposal)

  /** The table after an operation, the heap after any destructor it ran, and
      what that destructor did (None: no destructor ran). */
  datatype Updated = Updated(table: map<Fd, Shell>, heap: Heap, disposed: Option<Disposal>)

  /** g_hash_table_lookup: a table that was never created finds nothing. */
  function Lookup(t: Table, fd: Fd): (r: Option<Shell>)
    ensures r.Some? <==> t.Some? && fd in t.value
    ensures r.Some? ==> r.value == t.value[fd]
  {
    if t.Some? && fd in t.value then Some(t.value[fd]) else None
  }

  /** The table as a map, an absent table read as an empty one. */
  function Entries(t: Table): map<Fd, Shell>
  {
    if t.Some? then t.value else map[]
  }

  /** Every shell the table points to is still allocated. */
  ghost predicate TableLive(t: Table, heap: Heap)
  {
    forall fd | fd in Entries(t) :: Entries(t)[fd] in heap
  }

  /**
   * st_free_ctx: an empty context (ctx->ctx == NULL) is freed; otherwise
   * muacc_release_context is called once and the shell is left allocated,
   * whatever usage count comes back (a positive count is only reported).
   */
  function FreeCtx(heap: Heap, shell: Shell, rel: ReleaseAnswer): (r: Disposed)
    requires shell in heap
    ensures r.disposal.shell == shell
    ensures r.disposal.Freed? <==> heap[shell].None?
    ensures r.disposal.Released? ==> r.disposal.count == rel.count
    ensures shell in r.heap <==> heap[shell].Some?
    ensures shell in r.heap ==> r.heap[shell] == rel.ctxAfter
    ensures forall s | s in heap && s != shell :: s in r.heap && r.heap[s] == heap[s]
    ensures r.heap.Keys <= heap.Keys
  {
    if heap[shell].None? then
      Disposed(heap - {shell}, Freed(shell))
    else
      Disposed(heap[shell := rel.ctxAfter], Released(shell, rel.count))
  }

  /**
   * g_hash_table_insert: the descriptor now maps to `shell`; a context it
   * mapped to before is handed to the value destructor st_free_ctx.
   */
  function Insert(t: map<Fd, Shell>, heap: Heap, fd: Fd, shell: Shell, rel: ReleaseAnswer): (r: Updated)
    requires fd in t ==> t[fd] in heap
    ensures r.table.Keys == t.Keys + {fd}
    ensures r.table[fd] == shell
    ensures forall k | k in t && k != fd :: r.table[k] == t[k]
    ensures fd !in t ==> r.heap == heap && r.disposed == None
    ensures fd in t ==> r.disposed == Some(FreeCtx(heap, t[fd], rel).disposal)
                        && r.heap == FreeCtx(heap, t[fd], rel).heap
  {
    if fd in t then
      var d := FreeCtx(heap, t[fd], rel);
      Updated(t[fd := shell], d.heap, Some(d.disposal))
    else
      Updated(t[fd := shell], heap, None)
  }

  /**
   * g_hash_table_remove: the entry for `fd` is gone and every other entry is
   * kept; if there was one, its context went through st_free_ctx.
   */
  function Remove(t: map<Fd, Shell>, heap: Heap, fd: Fd, rel: ReleaseAnswer): (r: Updated)
    requires fd in t ==> t[fd] in heap
    ensures r.table.Keys == t.Keys - {fd}
    ensures forall k | k in r.table :: r.table[k] == t[k]
    ensures fd !in t ==> r.heap == heap && r.disposed == None
    ensures fd in t ==> r.disposed == Some(FreeCtx(heap, t[fd], rel).disposal)
                        && r.heap == FreeCtx(heap, t[fd], rel).heap
  {
    if fd in t then
      var d := FreeCtx(heap, t[fd], rel);
      Updated(t - {fd}, d.heap, Some(d.disposal))
    else
      Updated(t, heap, None)
  }
}
