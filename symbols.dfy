/**
 * The symbol resolver: get_orig_function looks up, with dlsym(RTLD_NEXT, name),
 * the implementation that would have been used without this preloaded library.
 * dlsym and dlerror are foreign; their combined answer is the DlSym value.
 */
module Symbols {
  import opened Wrappers

  /** The seven intercepted functions, named as in the C library. */
  datatype Hook = socket | setsockopt | getsockopt | getaddrinfo | bind | connect | close

  /** A code address; 0 is NULL. */
  type Ptr = nat
  const NULL: Ptr := 0

  /** A non-NULL code address, as held by a resolved orig_* pointer. */
  type Addr = p: Ptr | p != NULL witness 1

  /** What one lookup reports: the symbol's address, or an error from dlerror
      (dlsym then returns NULL). */
  datatype DlSym = Found(addr: Addr) | Missing

  /** The status get_orig_function returns and the value it wrote through its
      out-pointer (None: nothing written). */
  datatype OrigLookup = OrigLookup(status: int, stored: Option<Ptr>)

  /** The symbol name each hook asks dlsym for. */
  function Name(h: Hook): string
  {
    match h
    case socket => "socket"
    case setsockopt => "setsockopt"
    case getsockopt => "getsockopt"
    case getaddrinfo => "getaddrinfo"
    case bind => "bind"
    case connect => "connect"
    case close => "close"
  }

  /**
   * get_orig_function(name, function). `name` None stands for a NULL name,
   * `hasOut` false for a NULL out-pointer. It fails (-1) on either NULL
   * argument, before looking anything up, and when dlerror reports an error
   * after the lookup; otherwise it returns 0 and the out-pointer holds the
   * symbol's address.
   */
  function GetOrigFunction(name: Option<string>, hasOut: bool, dl: DlSym): (r: OrigLookup)
    ensures r.status == 0 || r.status == -1
    ensures r.status == 0 <==> name.Some? && hasOut && dl.Found?
    ensures r.stored.Some? <==> name.Some? && hasOut
    ensures r.status == 0 ==> r.stored == Some(dl.addr)
    ensures r.stored.Some? && r.status != 0 ==> r.stored == Some(NULL)
  {
    if name.None? || !hasOut then
      OrigLookup(-1, None)
    else
      match dl
      case Found(a) => OrigLookup(0, Some(a))
      case Missing => OrigLookup(-1, Some(NULL))
  }

  /** The orig_* cache after a lookup stored `stored` into the pointer of `h`:
      cached pointers are kept as a map holding only the non-NULL ones. */
  function Store(orig: map<Hook, Addr>, h: Hook, stored: Option<Ptr>): (r: map<Hook, Addr>)
    ensures forall g | g != h :: (g in r <==> g in orig) && (g in r ==> r[g] == orig[g])
    ensures stored.Some? ==> (h in r <==> stored.value != NULL)
    ensures stored.Some? && stored.value != NULL ==> r[h] == stored.value
    ensures stored.None? ==> r == orig
  {
    match stored
    case None => orig
    case Some(p) => if p != NULL then orig[h := p] else orig - {h}
  }
}
