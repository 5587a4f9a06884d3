/**
 * `Func` of PthTools.hpp: the routine to call, its argument and an optional
 * slot for the result. Invoking it calls the routine once, if there is one,
 * and stores what it returns through the slot, if there is one.
 *
 * `void *` values are modelled as addresses (`int`); the routine is a
 * function from its argument to its result, and `calls` records the
 * arguments it was called with.
 */
module PthTools {
  import opened Text

  /** The `void *` cell that `ret_ptr` points at. */
  class Slot {
    var value: int

    constructor (value: int)
      ensures this.value == value
    {
      this.value := value;
    }
  }

  /** `struct Func { func; args; ret_ptr; }`: `None` and `null` stand for `nullptr`. */
  datatype Func = Func(func: Option<int -> int>, args: int, retPtr: Slot?)

  /** What the slot holds after an invocation that started with `before` in it. */
  function After(f: Func, before: int): (v: int)
    ensures f.func.None? || f.retPtr == null ==> v == before
    ensures f.func.Some? && f.retPtr != null ==> v == f.func.value(f.args)
  {
    match f.func
    case None => before
    case Some(g) => if f.retPtr == null then before else g(f.args)
  }

  /** The arguments the routine is called with during one invocation. */
  function Calls(f: Func): (c: seq<int>)
    ensures |c| <= 1
    ensures f.func.Some? <==> c == [f.args]
  {
    if f.func.Some? then [f.args] else []
  }

  /**
   * `operator()()`, lines 15-20: with a null routine nothing happens;
   * otherwise the routine runs once on `args` and, when `ret_ptr` is set,
   * its result is written through it. Nothing else changes.
   */
  method Invoke(f: Func) returns (calls: seq<int>)
    modifies f.retPtr
    ensures calls == Calls(f)
    ensures f.retPtr != null ==> f.retPtr.value == After(f, old(f.retPtr.value))
  {
    calls := [];
    if f.func.Some? {
      var ret := f.func.value(f.args);
      calls := [f.args];
      if f.retPtr != null {
        f.retPtr.value := ret;
      }
    }
  }
}
