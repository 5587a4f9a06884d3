/**
 * The reactor of `fd_polling.cpp`: a table from file descriptors to
 * callbacks, kept in ascending fd order as `std::map` keeps it, and one round
 * of `react()` that polls every registered fd and fires the callbacks of the
 * ready ones from a copy of the table. A global registry records the
 * reactors that were started and not yet stopped.
 *
 * What `poll` leaves in each `revents` field is an input (a function of the
 * fd), and so is what each callback does to the table while it runs (the
 * `addFd`/`removeFd` calls it makes, as a list of operations).
 */
module Reactor {
  /** A callback, identified by its address. */
  datatype Func = Func(address: int)

  /** One `std::map` entry. */
  datatype Entry = Entry(fd: int, callback: Func)

  /** One `pollfd`. */
  datatype PollFd = PollFd(fd: int, events: bv16, revents: bv16)

  /** What a callback may do to the table while it runs. */
  datatype Op = AddOp(fd: int, callback: Func) | RemoveOp(fd: int)

  const POLLIN: bv16 := 0x0001

  // ---------------------------------------------------------------------
  // The table as a sorted list of entries
  // ---------------------------------------------------------------------

  /** Strictly ascending fds: each fd at most once, in the order `std::map` iterates. */
  predicate Sorted(es: seq<Entry>) {
    forall i, j :: 0 <= i < j < |es| ==> es[i].fd < es[j].fd
  }

  /** The map the entries stand for. */
  function Table(es: seq<Entry>): map<int, Func> {
    if es == [] then map[] else Table(es[1..])[es[0].fd := es[0].callback]
  }

  /** `std::map::insert`: a new fd goes in at its place; an fd already there keeps its callback. */
  function Insert(es: seq<Entry>, fd: int, cb: Func): seq<Entry> {
    if es == [] then [Entry(fd, cb)]
    else if fd < es[0].fd then [Entry(fd, cb)] + es
    else if fd == es[0].fd then es
    else [es[0]] + Insert(es[1..], fd, cb)
  }

  /** `std::map::erase(fd)`. */
  function Erase(es: seq<Entry>, fd: int): seq<Entry> {
    if es == [] then []
    else if es[0].fd == fd then Erase(es[1..], fd)
    else [es[0]] + Erase(es[1..], fd)
  }

  /** The keys of a sorted list and its map agree, entry by entry. */
  lemma {:induction false} TableHas(es: seq<Entry>)
    requires Sorted(es)
    ensures forall fd :: fd in Table(es) <==> exists i :: 0 <= i < |es| && es[i].fd == fd
    ensures forall i :: 0 <= i < |es| ==> es[i].fd in Table(es) && Table(es)[es[i].fd] == es[i].callback
  {
    if es != [] {
      TableHas(es[1..]);
      forall i | 0 <= i < |es| ensures es[i].fd in Table(es) && Table(es)[es[i].fd] == es[i].callback {
        if i > 0 {
          assert es[1..][i - 1] == es[i];
        }
      }
      forall fd | fd in Table(es) ensures exists i :: 0 <= i < |es| && es[i].fd == fd {
        if fd != es[0].fd {
          var i :| 0 <= i < |es[1..]| && es[1..][i].fd == fd;
          assert es[i + 1].fd == fd;
        }
      }
    }
  }

  /** Every fd of `Insert(es, fd, cb)` is `fd` or an fd of `es`. */
  lemma {:induction false} InsertBounds(es: seq<Entry>, fd: int, cb: Func, lo: int)
    requires forall i :: 0 <= i < |es| ==> lo < es[i].fd
    requires lo < fd
    ensures forall i :: 0 <= i < |Insert(es, fd, cb)| ==> lo < Insert(es, fd, cb)[i].fd
  {
    if es != [] && fd > es[0].fd {
      InsertBounds(es[1..], fd, cb, lo);
      var r := Insert(es[1..], fd, cb);
      assert Insert(es, fd, cb) == [es[0]] + r;
    }
  }

  /** `insert` keeps the order, adds an absent fd and leaves a present one alone. */
  lemma InsertCorrect(es: seq<Entry>, fd: int, cb: Func)
    requires Sorted(es)
    ensures Sorted(Insert(es, fd, cb))
    ensures Table(Insert(es, fd, cb)) == if fd in Table(es) then Table(es) else Table(es)[fd := cb]
  {
    InsertSorted(es, fd, cb);
    InsertTable(es, fd, cb);
  }

  lemma {:induction false} InsertSorted(es: seq<Entry>, fd: int, cb: Func)
    requires Sorted(es)
    ensures Sorted(Insert(es, fd, cb))
  {
    if es != [] && fd > es[0].fd {
      var rest := es[1..];
      InsertSorted(rest, fd, cb);
      forall i | 0 <= i < |rest| ensures es[0].fd < rest[i].fd {
        assert rest[i] == es[i + 1];
      }
      InsertBounds(rest, fd, cb, es[0].fd);
      var r := Insert(rest, fd, cb);
      assert Insert(es, fd, cb) == [es[0]] + r;
      forall i, j | 0 <= i < j < |[es[0]] + r| ensures ([es[0]] + r)[i].fd < ([es[0]] + r)[j].fd {
        if i > 0 {
          assert ([es[0]] + r)[i] == r[i - 1];
        }
      }
    }
  }

  lemma {:induction false} InsertTable(es: seq<Entry>, fd: int, cb: Func)
    requires Sorted(es)
    ensures Table(Insert(es, fd, cb)) == if fd in Table(es) then Table(es) else Table(es)[fd := cb]
  {
    if es != [] && fd > es[0].fd {
      var rest := es[1..];
      assert Sorted(rest) by {
        forall i, j | 0 <= i < j < |rest| ensures rest[i].fd < rest[j].fd {
          assert rest[i] == es[i + 1] && rest[j] == es[j + 1];
        }
      }
      InsertTable(rest, fd, cb);
      var r := Insert(rest, fd, cb);
      assert Insert(es, fd, cb) == [es[0]] + r;
      assert ([es[0]] + r)[1..] == r;
      assert fd in Table(es) <==> fd in Table(rest);
    } else if es != [] && fd < es[0].fd {
      TableHas(es);
      assert ([Entry(fd, cb)] + es)[1..] == es;
      forall i | 0 <= i < |es| ensures es[i].fd != fd {
        if i > 0 {
          assert es[0].fd < es[i].fd;
        }
      }
    }
  }

  /** Every fd of `Erase(es, fd)` is an fd of `es`. */
  lemma {:induction false} EraseBounds(es: seq<Entry>, fd: int, lo: int)
    requires forall i :: 0 <= i < |es| ==> lo < es[i].fd
    ensures forall i :: 0 <= i < |Erase(es, fd)| ==> lo < Erase(es, fd)[i].fd
  {
    if es != [] {
      EraseBounds(es[1..], fd, lo);
      if es[0].fd != fd {
        var r := Erase(es[1..], fd);
        assert Erase(es, fd) == [es[0]] + r;
      }
    }
  }

  /** `erase` keeps the order and drops exactly that fd. */
  lemma EraseCorrect(es: seq<Entry>, fd: int)
    requires Sorted(es)
    ensures Sorted(Erase(es, fd))
    ensures Table(Erase(es, fd)) == Table(es) - {fd}
  {
    EraseSorted(es, fd);
    EraseTable(es, fd);
  }

  lemma {:induction false} EraseSorted(es: seq<Entry>, fd: int)
    requires Sorted(es)
    ensures Sorted(Erase(es, fd))
  {
    if es != [] {
      var rest := es[1..];
      EraseSorted(rest, fd);
      if es[0].fd != fd {
        forall i | 0 <= i < |rest| ensures es[0].fd < rest[i].fd {
          assert rest[i] == es[i + 1];
        }
        EraseBounds(rest, fd, es[0].fd);
        var r := Erase(rest, fd);
        assert Erase(es, fd) == [es[0]] + r;
        forall i, j | 0 <= i < j < |[es[0]] + r| ensures ([es[0]] + r)[i].fd < ([es[0]] + r)[j].fd {
          if i > 0 {
            assert ([es[0]] + r)[i] == r[i - 1];
          }
        }
      }
    }
  }

  lemma {:induction false} EraseTable(es: seq<Entry>, fd: int)
    requires Sorted(es)
    ensures Table(Erase(es, fd)) == Table(es) - {fd}
  {
    if es != [] {
      var rest := es[1..];
      assert Sorted(rest) by {
        forall i, j | 0 <= i < j < |rest| ensures rest[i].fd < rest[j].fd {
          assert rest[i] == es[i + 1] && rest[j] == es[j + 1];
        }
      }
      EraseTable(rest, fd);
      if es[0].fd != fd {
        assert Erase(es, fd) == [es[0]] + Erase(rest, fd);
        assert ([es[0]] + Erase(rest, fd))[1..] == Erase(rest, fd);
      } else {
        TableHas(rest);
        forall i | 0 <= i < |rest| ensures rest[i].fd != fd {
          assert rest[i] == es[i + 1];
        }
        assert Table(rest) - {fd} == Table(rest);
      }
    }
  }

  // ---------------------------------------------------------------------
  // One round of react()
  // ---------------------------------------------------------------------

  /** Whether the `revents` poll left for `fd` include POLLIN. */
  predicate Hot(revents: int -> bv16, fd: int) {
    revents(fd) & POLLIN != 0
  }

  /** The entries of the copied table whose fd came back with POLLIN, in table order. */
  function Dispatch(es: seq<Entry>, revents: int -> bv16): seq<Entry> {
    if es == [] then []
    else Dispatch(es[..|es| - 1], revents) + (if Hot(revents, es[|es| - 1].fd) then [es[|es| - 1]] else [])
  }

  /** A table operation as the reactor's own `addFd`/`removeFd` performs it. */
  function Apply(es: seq<Entry>, op: Op): seq<Entry> {
    match op
    case AddOp(fd, cb) => Insert(es, fd, cb)
    case RemoveOp(fd) => Erase(es, fd)
  }

  /** A callback's operations, in turn. */
  function ApplyAll(es: seq<Entry>, ops: seq<Op>): seq<Entry> {
    if ops == [] then es else Apply(ApplyAll(es, ops[..|ops| - 1]), ops[|ops| - 1])
  }

  /** The table after the fired callbacks have run, in order. */
  function AfterCalls(es: seq<Entry>, fired: seq<Entry>, calls: int -> seq<Op>): seq<Entry> {
    if fired == [] then es
    else ApplyAll(AfterCalls(es, fired[..|fired| - 1], calls), calls(fired[|fired| - 1].fd))
  }

  /**
   * What fires in a round: in ascending fd order, every registered fd whose
   * revents include POLLIN, each with the callback it had when the round
   * began, and nothing else.
   */
  lemma {:induction false} DispatchCorrect(es: seq<Entry>, revents: int -> bv16)
    requires Sorted(es)
    ensures Sorted(Dispatch(es, revents))
    ensures forall e :: e in Dispatch(es, revents) <==> e in es && Hot(revents, e.fd)
    ensures forall fd, cb :: Entry(fd, cb) in Dispatch(es, revents) <==>
      fd in Table(es) && Table(es)[fd] == cb && Hot(revents, fd)
  {
    TableHas(es);
    DispatchOrdered(es, revents);
    forall fd, cb ensures Entry(fd, cb) in es <==> fd in Table(es) && Table(es)[fd] == cb {
      if fd in Table(es) && Table(es)[fd] == cb {
        var i :| 0 <= i < |es| && es[i].fd == fd;
        assert es[i] == Entry(fd, cb);
      }
    }
  }

  /** The fired entries come from the table, keep its order and are exactly its hot entries. */
  lemma {:induction false} DispatchOrdered(es: seq<Entry>, revents: int -> bv16)
    requires Sorted(es)
    ensures Sorted(Dispatch(es, revents))
    ensures forall e :: e in Dispatch(es, revents) <==> e in es && Hot(revents, e.fd)
  {
    if es != [] {
      var init := es[..|es| - 1];
      var last := es[|es| - 1];
      DispatchOrdered(init, revents);
      assert es == init + [last];
      var d := Dispatch(init, revents);
      forall i | 0 <= i < |d| ensures d[i].fd < last.fd {
        assert d[i] in init;
      }
    }
  }

  // ---------------------------------------------------------------------
  // The reactor object (fd_polling)
  // ---------------------------------------------------------------------

  class FdPolling {
    /** `fd_funcs`. */
    var entries: seq<Entry>

    ghost predicate Valid()
      reads this
    {
      Sorted(entries)
    }

    /** The map the reactor holds. */
    function Funcs(): map<int, Func>
      reads this
    {
      Table(entries)
    }

    constructor ()
      ensures Valid() && entries == []
    {
      entries := [];
    }

    /** `start()`: the thread start is commented out; it returns 0. */
    method Start() returns (r: int)
      ensures r == 0
    {
      r := 0;
    }

    /** `stop()`: likewise a no-op returning 0. */
    method Stop() returns (r: int)
      ensures r == 0
    {
      r := 0;
    }

    /** Lines 63-68: `insert` never replaces a registered callback; the result is always 0. */
    method AddFd(fd: int, callback: Func) returns (r: int)
      requires Valid()
      modifies this
      ensures Valid() && r == 0
      ensures entries == Insert(old(entries), fd, callback)
      ensures Funcs() == if fd in old(Funcs()) then old(Funcs()) else old(Funcs())[fd := callback]
    {
      InsertCorrect(entries, fd, callback);
      entries := Insert(entries, fd, callback);
      r := 0;
    }

    /** Lines 70-75: drops that fd's entry, if any; the result is always 0. */
    method RemoveFd(fd: int) returns (r: int)
      requires Valid()
      modifies this
      ensures Valid() && r == 0
      ensures entries == Erase(old(entries), fd)
      ensures Funcs() == old(Funcs()) - {fd}
    {
      EraseCorrect(entries, fd);
      entries := Erase(entries, fd);
      r := 0;
    }

    /** Lines 45-47: one request per registered fd, in table order, asking for and preset to POLLIN. */
    method Requests() returns (fds: seq<PollFd>)
      ensures |fds| == |entries|
      ensures forall j :: 0 <= j < |fds| ==> fds[j] == PollFd(entries[j].fd, POLLIN, POLLIN)
    {
      fds := [];
      for k := 0 to |entries|
        invariant |fds| == k
        invariant forall j :: 0 <= j < k ==> fds[j] == PollFd(entries[j].fd, POLLIN, POLLIN)
      {
        fds := fds + [PollFd(entries[k].fd, POLLIN, POLLIN)];
      }
    }

    /** The operations one callback performs on this reactor while it runs. */
    method Perform(ops: seq<Op>)
      requires Valid()
      modifies this
      ensures Valid() && entries == ApplyAll(old(entries), ops)
    {
      for k := 0 to |ops|
        invariant Valid() && entries == ApplyAll(old(entries), ops[..k])
      {
        assert ops[..k + 1][..k] == ops[..k];
        match ops[k]
        case AddOp(fd, cb) =>
          var _ := AddFd(fd, cb);
        case RemoveOp(fd) =>
          var _ := RemoveFd(fd);
      }
      assert ops[..|ops|] == ops;
    }

    /**
     * Lines 42-61: poll every registered fd, then fire, from a copy of the
     * table taken after the poll, the callback of every fd whose revents
     * include POLLIN, in ascending fd order. `fired` lists the callbacks
     * called, each with its own fd; the table ends as the callbacks left it.
     */
    method React(revents: int -> bv16, calls: int -> seq<Op>) returns (fired: seq<Entry>)
      requires Valid()
      modifies this
      ensures Valid()
      ensures fired == Dispatch(old(entries), revents)
      ensures entries == AfterCalls(old(entries), fired, calls)
    {
      var requests := Requests();
      var fds := seq(|requests|, j requires 0 <= j < |requests| => requests[j].(revents := revents(requests[j].fd)));
      var funcs := entries;
      TableHas(funcs);
      fired := [];
      for k := 0 to |fds|
        invariant Valid()
        invariant fired == Dispatch(funcs[..k], revents)
        invariant entries == AfterCalls(funcs, fired, calls)
      {
        assert funcs[..k + 1][..k] == funcs[..k];
        var p := fds[k];
        if p.revents & POLLIN != 0 && p.fd in Table(funcs) {
          assert Table(funcs)[p.fd] == funcs[k].callback;
          var e := Entry(p.fd, Table(funcs)[p.fd]);
          fired := fired + [e];
          assert fired[..|fired| - 1] == Dispatch(funcs[..k], revents);
          Perform(calls(p.fd));
        }
      }
      assert funcs[..|fds|] == funcs;
    }
  }

  // ---------------------------------------------------------------------
  // The void*-based wrappers and the registry (lines 96-137)
  // ---------------------------------------------------------------------

  /** Line 106-109: a null reactor is not polled. */
  method PollReactor(reactor: FdPolling?, revents: int -> bv16, calls: int -> seq<Op>) returns (fired: seq<Entry>)
    requires reactor != null ==> reactor.Valid()
    modifies reactor
    ensures reactor == null ==> fired == []
    ensures reactor != null ==> (reactor.Valid() && fired == Dispatch(old(reactor.entries), revents)
      && reactor.entries == AfterCalls(old(reactor.entries), fired, calls))
  {
    fired := [];
    if reactor == null {
      return;
    }
    fired := reactor.React(revents, calls);
  }

  /** Lines 111-117: -1 for a null reactor, otherwise `addFd`. */
  method AddFdToReactor(reactor: FdPolling?, fd: int, func: Func) returns (r: int)
    requires reactor != null ==> reactor.Valid()
    modifies reactor
    ensures reactor == null <==> r == -1
    ensures reactor != null ==> r == 0 && reactor.Valid() && reactor.entries == Insert(old(reactor.entries), fd, func)
  {
    if reactor == null {
      return -1;
    }
    r := reactor.AddFd(fd, func);
  }

  /** Lines 119-125: -1 for a null reactor, otherwise `removeFd`. */
  method RemoveFdFromReactor(reactor: FdPolling?, fd: int) returns (r: int)
    requires reactor != null ==> reactor.Valid()
    modifies reactor
    ensures reactor == null <==> r == -1
    ensures reactor != null ==> r == 0 && reactor.Valid() && reactor.entries == Erase(old(reactor.entries), fd)
  {
    if reactor == null {
      return -1;
    }
    r := reactor.RemoveFd(fd);
  }

  /** `std::erase(reactors, r)`: every occurrence of r goes, the rest keep their order. */
  function Without(rs: seq<FdPolling>, r: FdPolling): (out: seq<FdPolling>)
    ensures r !in out
    ensures forall i :: 0 <= i < |out| ==> out[i] in rs && out[i] != r
    ensures forall i :: 0 <= i < |rs| && rs[i] != r ==> rs[i] in out
    ensures |out| <= |rs|
  {
    if rs == [] then []
    else if rs[0] == r then Without(rs[1..], r)
    else [rs[0]] + Without(rs[1..], r)
  }

  /** The global `reactors` vector. */
  class Registry {
    var reactors: seq<FdPolling>

    constructor ()
      ensures reactors == []
    {
      reactors := [];
    }

    /** Lines 96-104: a new empty reactor, appended to the registry (`start()` cannot fail). */
    method StartReactor() returns (reactor: FdPolling)
      modifies this
      ensures fresh(reactor) && reactor.Valid() && reactor.entries == []
      ensures reactors == old(reactors) + [reactor]
    {
      reactor := new FdPolling();
      var started := reactor.Start();
      reactors := reactors + [reactor];
    }

    /** Lines 127-137: 0 for a null reactor; otherwise it leaves the registry (`stop()` cannot fail). */
    method StopReactor(reactor: FdPolling?) returns (r: int)
      modifies this
      ensures r == 0
      ensures reactor == null ==> reactors == old(reactors)
      ensures reactor != null ==> reactors == Without(old(reactors), reactor)
    {
      if reactor == null {
        return 0;
      }
      var stopped := reactor.Stop();
      reactors := Without(reactors, reactor);
      r := 0;
    }

    /**
     * Lines 139-143: every registered reactor is stopped, then the registry
     * is emptied. The loop runs over a copy of the registry taken at entry.
     */
    method StopAllReactors() returns (stopped: seq<FdPolling>)
      modifies this
      ensures stopped == old(reactors)
      ensures reactors == []
    {
      var all := reactors;
      stopped := [];
      for i := 0 to |all|
        invariant stopped == all[..i]
      {
        var r := StopReactor(all[i]);
        stopped := stopped + [all[i]];
      }
      reactors := [];
    }
  }
}
