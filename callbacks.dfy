/**
 * The process-wide callback table `JsCbLookup` and its registration
 * function `AddJsCb`: every route registered by the root script appends
 * one row, and the row's index is the identifier that requests carry.
 */
module Callbacks {
  import opened PyValues

  /** One row of the table: (jscb, jsargs, logger, options). The logger
      writes into a pipe that the coordinator drains; the model keeps the
      name the logger is created with. */
  datatype Entry = Entry(callback: Value, args: Value, loggerName: string, options: PyDict)

  /** What one registration asks for: the route path, the script callback
      and the route's options. */
  datatype Registration = Registration(path: string, callback: Value, options: PyDict)

  /** The name given to a route's logger, "[<method>]<path>", where the
      method option defaults to "http". */
  function LoggerName(path: string, options: PyDict): (name: string)
    ensures "method" !in options ==> name == "[http]" + path
    ensures "method" in options && options["method"].Str? ==>
              name == "[" + options["method"].s + "]" + path
    ensures |name| >= |path| + 2 && name[0] == '[' && name[|name| - |path|..] == path
  {
    "[" + Show(Get(options, "method", Str("http"))) + "]" + path
  }

  /** The row `AddJsCb` appends for a registration: static arguments
      default to None. */
  function EntryFor(reg: Registration): (e: Entry)
    ensures e.callback == reg.callback && e.options == reg.options
    ensures "args" in reg.options ==> e.args == reg.options["args"]
    ensures "args" !in reg.options ==> e.args == Null
  {
    Entry(reg.callback, Get(reg.options, "args", Null), LoggerName(reg.path, reg.options), reg.options)
  }

  /** `JsCbLookup[key]`: Python list indexing, where bools are the integers
      0 and 1, a negative index counts from the end, and any other key
      raises TypeError. */
  function Lookup(table: seq<Entry>, key: Value): (r: Result<Entry>)
    ensures key.Int? && 0 <= key.i < |table| ==> r == Ok(table[key.i])
    ensures key.Int? && -|table| <= key.i < 0 ==> r == Ok(table[key.i + |table|])
    ensures key.Int? && (key.i >= |table| || key.i < -|table|) ==> r == Raise(Fault(IndexError, Null))
    ensures !(key.Int? || key.Bool?) ==> r == Raise(Fault(TypeError, Null))
  {
    match key
    case Int(i) =>
      (match PyIndex(|table|, i)
       case Some(k) => Ok(table[k])
       case None => Raise(Fault(IndexError, Null)))
    case Bool(b) =>
      (match PyIndex(|table|, if b then 1 else 0)
       case Some(k) => Ok(table[k])
       case None => Raise(Fault(IndexError, Null)))
    case _ => Raise(Fault(TypeError, Null))
  }

  /** The table after a sequence of registrations, in order. */
  function RegisterAll(table: seq<Entry>, regs: seq<Registration>): seq<Entry>
    decreases |regs|
  {
    if regs == [] then table
    else RegisterAll(table, regs[..|regs| - 1]) + [EntryFor(regs[|regs| - 1])]
  }

  /** A run of registrations appends one row per registration, in order,
      after the rows already present. */
  lemma {:induction false} RegisterAllAppends(table: seq<Entry>, regs: seq<Registration>)
    ensures |RegisterAll(table, regs)| == |table| + |regs|
    ensures forall i :: 0 <= i < |table| ==> RegisterAll(table, regs)[i] == table[i]
    ensures forall k :: 0 <= k < |regs| ==> RegisterAll(table, regs)[|table| + k] == EntryFor(regs[k])
    decreases |regs|
  {
    if regs != [] {
      var init := regs[..|regs| - 1];
      RegisterAllAppends(table, init);
      forall k | 0 <= k < |init|
        ensures RegisterAll(table, regs)[|table| + k] == EntryFor(regs[k])
      {
        assert init[k] == regs[k];
      }
    }
  }

  /** Every identifier handed out by a run of registrations looks up the
      row built from that registration, and the rows already present keep
      their identifiers: registry order is identifier order. */
  lemma RegisterAllLookup(table: seq<Entry>, regs: seq<Registration>)
    ensures |RegisterAll(table, regs)| == |table| + |regs|
    ensures forall k :: 0 <= k < |regs| ==>
              Lookup(RegisterAll(table, regs), Int(|table| + k)) == Ok(EntryFor(regs[k]))
    ensures forall i :: 0 <= i < |table| ==>
              Lookup(RegisterAll(table, regs), Int(i)) == Ok(table[i])
  {
    RegisterAllAppends(table, regs);
  }

  /** `JsCbLookup` together with `AddJsCb`, which appends to it. */
  class CallbackTable {
    var entries: seq<Entry>

    constructor ()
      ensures entries == []
    {
      entries := [];
    }

    /** `AddJsCb(path, jscb, options)`: the identifier returned is the
        table's length before the call, and the new row sits there. */
    method Add(path: string, callback: Value, options: PyDict) returns (ident: nat)
      modifies this
      ensures ident == |old(entries)|
      ensures entries == old(entries) + [EntryFor(Registration(path, callback, options))]
      ensures Lookup(entries, Int(ident)) == Ok(EntryFor(Registration(path, callback, options)))
    {
      var args := Get(options, "args", Null);
      ident := |entries|;
      entries := entries + [Entry(callback, args, LoggerName(path, options), options)];
    }
  }
}
