/**
 * The Python values that flow through the core: request and response
 * dictionaries, option dictionaries, query parameters, and the exceptions
 * the code raises or catches. Only the behaviour the core relies on is
 * modelled: truthiness, `d.get(k, default)`, the `in` operator,
 * subscripting, list indexing and `str()` of simple values.
 */
module PyValues {

  datatype Option<+T> = None | Some(value: T)

  /** A Python object as the core sees it. `Handle` stands for an object of
      the script engine (a callback, a module object) that the core only
      passes along. */
  datatype Value =
    | Null
    | Bool(b: bool)
    | Int(i: int)
    | Str(s: string)
    | List(items: seq<Value>)
    | Dict(entries: map<string, Value>)
    | Handle(id: nat)

  /** A Python dictionary with string keys. */
  type PyDict = map<string, Value>

  /** The exception classes the core raises or lets through. */
  datatype ErrorKind =
    | KeyError | IndexError | TypeError | AttributeError | ValueError
    | RuntimeError | RequireError | ScriptError

  /** A raised exception: its class and the argument it was raised with
      (`Null` for an exception raised by the interpreter itself). */
  datatype Fault = Fault(kind: ErrorKind, message: Value)

  /** Either a value or a raised exception. */
  datatype Result<+T> = Ok(value: T) | Raise(fault: Fault)

  const WhitespaceChars: set<char> := {' ', '\t', '\n', '\r', '\U{B}', '\U{C}'}

  /** `\s` of Python 2's `re` on byte strings, and of `str.split()`. */
  predicate IsSpace(c: char) {
    c in WhitespaceChars
  }

  /** Python truthiness, as used by `if v:` and `not v`. */
  predicate Truthy(v: Value) {
    match v
    case Null => false
    case Bool(b) => b
    case Int(i) => i != 0
    case Str(s) => s != ""
    case List(xs) => xs != []
    case Dict(m) => m != map[]
    case Handle(_) => true
  }

  /** `d.get(k, default)` */
  function Get(d: PyDict, k: string, default: Value): (v: Value)
    ensures k in d ==> v == d[k]
    ensures k !in d ==> v == default
  {
    if k in d then d[k] else default
  }

  /** True when `needle` occurs as a contiguous part of `hay`. */
  predicate IsInfix(needle: string, hay: string) {
    exists i :: 0 <= i <= |hay| - |needle| && InfixAt(needle, hay, i)
  }

  predicate InfixAt(needle: string, hay: string, i: int)
    requires 0 <= i <= |hay| - |needle|
  {
    hay[i..i + |needle|] == needle
  }

  /** `key in container` for a string `key`: key membership for a
      dictionary, element membership for a list, substring search for a
      string; any other object is not iterable and raises TypeError. */
  function Contains(container: Value, key: string): (r: Result<bool>)
    ensures container.Dict? ==> r == Ok(key in container.entries)
    ensures r.Raise? <==> !(container.Dict? || container.List? || container.Str?)
  {
    match container
    case Dict(m) => Ok(key in m)
    case List(xs) => Ok(Str(key) in xs)
    case Str(s) => Ok(IsInfix(key, s))
    case _ => Raise(Fault(TypeError, Null))
  }

  /** `container[key]` for a string `key`. */
  function Subscript(container: Value, key: string): (r: Result<Value>)
    ensures r.Ok? <==> container.Dict? && key in container.entries
    ensures r.Ok? ==> r.value == container.entries[key]
  {
    match container
    case Dict(m) => if key in m then Ok(m[key]) else Raise(Fault(KeyError, Str(key)))
    case _ => Raise(Fault(TypeError, Null))
  }

  /** The position `list[i]` denotes in a list of length `n`: Python counts
      a negative index from the end. None is IndexError. */
  function PyIndex(n: nat, i: int): (r: Option<nat>)
    ensures r.Some? <==> -(n as int) <= i < n
    ensures r.Some? ==> r.value < n && (r.value == i || r.value == i + n)
  {
    if 0 <= i < n then Some(i) else if -(n as int) <= i < 0 then Some(i + n) else None
  }

  /** The decimal digits of a natural number. */
  function DecimalDigits(n: nat): (r: string)
    ensures |r| >= 1
    ensures forall k :: 0 <= k < |r| ==> '0' <= r[k] <= '9'
  {
    if n < 10 then [('0' as int + n) as char]
    else DecimalDigits(n / 10) + [('0' as int + n % 10) as char]
  }

  /** `"%x" % n`: lower-case hexadecimal digits. */
  function HexDigits(n: nat): (r: string)
    ensures |r| >= 1
    ensures forall k :: 0 <= k < |r| ==> r[k] in "0123456789abcdef"
  {
    if n < 16 then ["0123456789abcdef"[n]]
    else HexDigits(n / 16) + ["0123456789abcdef"[n % 16]]
  }

  /** `str(v)` for the values whose text the core builds into names and
      messages. Lists, dictionaries and engine objects get a placeholder. */
  function Show(v: Value): string {
    match v
    case Null => "None"
    case Bool(b) => if b then "True" else "False"
    case Int(i) => if i < 0 then "-" + DecimalDigits(-i) else DecimalDigits(i)
    case Str(s) => s
    case List(_) => "[...]"
    case Dict(_) => "{...}"
    case Handle(_) => "<object>"
  }

  function KindName(k: ErrorKind): string {
    match k
    case KeyError => "KeyError"
    case IndexError => "IndexError"
    case TypeError => "TypeError"
    case AttributeError => "AttributeError"
    case ValueError => "ValueError"
    case RuntimeError => "RuntimeError"
    case RequireError => "RequireError"
    case ScriptError => "JSError"
  }

  /** The last line of `traceback.format_exc()` for a fault; the stack
      lines above it are not modelled. */
  function TraceText(f: Fault): string {
    KindName(f.kind) + ": " + Show(f.message)
  }
}
