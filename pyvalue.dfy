/**
 * The values of a model reply as Python sees them once the JSON is parsed,
 * the built-in exceptions the relay and the saving script can raise on them,
 * and the two Python operations they apply to a value of unknown shape:
 * the membership test `key in container` and the subscript `container[key]`.
 */
module PyValue {
  import opened Wrappers
  import PyStr

  /** A parsed JSON value: `None`, a bool, a number, a str, a list or a dict. */
  datatype Value =
    | Null
    | Bool(b: bool)
    | Number(n: int)
    | Str(s: string)
    | List(items: seq<Value>)
    | Dict(fields: map<string, Value>)

  /** The Python exceptions that operations on reply values raise. */
  datatype Exception =
    | TypeError(message: string)
    | KeyError(key: string)
    | AttributeError(message: string)

  /** `type(v).__name__`. */
  function TypeName(v: Value): string
  {
    match v
    case Null => "NoneType"
    case Bool(_) => "bool"
    case Number(_) => "int"
    case Str(_) => "str"
    case List(_) => "list"
    case Dict(_) => "dict"
  }

  /** `str(e)`: the text an exception renders to. */
  function Describe(e: Exception): string
  {
    match e
    case TypeError(m) => m
    case KeyError(k) => "'" + k + "'"
    case AttributeError(m) => m
  }

  /** A value `key in v` can be asked of: a dict, a str or a list. */
  predicate IsContainer(v: Value)
  {
    v.Dict? || v.Str? || v.List?
  }

  /**
   * `key in v` for a str key: a key of a dict, a substring of a str, an
   * element of a list; anything else is not iterable.
   */
  function Contains(v: Value, key: string): (r: Result<bool, Exception>)
    ensures r.Ok? <==> IsContainer(v)
    ensures v.Dict? ==> r == Ok(key in v.fields)
  {
    match v
    case Dict(m) => Ok(key in m)
    case Str(s) => Ok(PyStr.IsSubstring(key, s))
    case List(xs) => Ok(Str(key) in xs)
    case _ => Err(TypeError("argument of type '" + TypeName(v) + "' is not iterable"))
  }

  /**
   * `v[key]` for a str key: only a dict holding the key yields a value; a dict
   * without it raises KeyError, and every other value raises TypeError.
   */
  function GetItem(v: Value, key: string): (r: Result<Value, Exception>)
    ensures r.Ok? <==> v.Dict? && key in v.fields
    ensures r.Ok? ==> r.value == v.fields[key]
    ensures v.Dict? && key !in v.fields ==> r == Err(KeyError(key))
  {
    match v
    case Dict(m) => if key in m then Ok(m[key]) else Err(KeyError(key))
    case Str(_) => Err(TypeError("string indices must be integers, not 'str'"))
    case List(_) => Err(TypeError("list indices must be integers or slices, not str"))
    case _ => Err(TypeError("'" + TypeName(v) + "' object is not subscriptable"))
  }
}
