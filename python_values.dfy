/** The parts of Python's value semantics that the prediction endpoint relies
    on: the values a decoded JSON body can hold, the exceptions the endpoint's
    expressions can raise, truthiness, the `in` operator, subscripting by a
    string key and the built-in `max`. */
module PyValues {

  datatype Option<+T> = None | Some(value: T)

  /** A Python float as the JSON decoder produces it; the decoder also accepts
      the tokens NaN, Infinity and -Infinity. A finite float is its exact value. */
  datatype Float = Finite(value: real) | PosInfinity | NegInfinity | NaN

  /** A decoded JSON document: None, bool, int, float, str, list or dict. */
  datatype Json =
    | Null
    | Bool(b: bool)
    | Int(i: int)
    | Num(f: Float)
    | Str(s: string)
    | Arr(items: seq<Json>)
    | Obj(fields: map<string, Json>)

  /** An exception raised while handling a request. Only what determines the
      message is kept; the rendering `str(e)` is not modelled. */
  datatype Exception =
    | InvalidLiteral(text: string)       // ValueError: invalid literal for int() with base 10
    | TooManyDigits(digits: nat)         // ValueError: exceeds the limit for integer string conversion
    | FloatNaN                           // ValueError: cannot convert float NaN to integer
    | FloatInfinity                      // OverflowError: cannot convert float infinity to integer
    | NotANumber(typeName: string)       // TypeError: int() argument must be a string ... not '<type>'
    | NotIterable(typeName: string)      // TypeError: argument of type '<type>' is not iterable
    | IndexNotInteger(typeName: string)  // TypeError: str / list indices must be integers
    | NotSubscriptable(typeName: string) // TypeError: '<type>' object is not subscriptable
    | KeyMissing(key: string)            // KeyError
    | Foreign(message: string)           // raised inside the web framework or the classifier

  /** The result of evaluating a Python expression: a value, or a raised
      exception. Failure-compatible, so `var x :- e;` propagates the exception
      the way Python does. */
  datatype Outcome<+T> = Returned(value: T) | Raised(error: Exception) {
    predicate IsFailure() {
      Raised?
    }

    function PropagateFailure<U>(): Outcome<U>
      requires Raised?
    {
      Raised(error)
    }

    function Extract(): T
      requires Returned?
    {
      value
    }
  }

  /** `type(v).__name__` */
  function TypeName(v: Json): (name: string) {
    match v
    case Null => "NoneType"
    case Bool(_) => "bool"
    case Int(_) => "int"
    case Num(_) => "float"
    case Str(_) => "str"
    case Arr(_) => "list"
    case Obj(_) => "dict"
  }

  /** `bool(v)`: None, False, zero, and empty strings, lists and dicts are false;
      NaN and the infinities are true. */
  predicate Truthy(v: Json)
    ensures !Truthy(v) <==>
      v == Null || v == Bool(false) || v == Int(0) || v == Num(Finite(0.0))
      || v == Str("") || v == Arr([]) || v == Obj(map[])
  {
    match v
    case Null => false
    case Bool(b) => b
    case Int(i) => i != 0
    case Num(f) => f != Finite(0.0)
    case Str(s) => s != ""
    case Arr(items) => items != []
    case Obj(fields) => fields != map[]
  }

  /** Whether `key` occurs as a contiguous run of `s`. */
  predicate IsSubstring(key: string, s: string)
    decreases |s|
  {
    key <= s || (s != [] && IsSubstring(key, s[1..]))
  }

  /** `key in v` for a string `key`: a key of a dict, an element of a list,
      a substring of a str; a TypeError for anything not iterable. */
  function Contains(v: Json, key: string): (r: Outcome<bool>)
    ensures r.Raised? <==> v.Null? || v.Bool? || v.Int? || v.Num?
    ensures v.Obj? ==> r == Returned(key in v.fields)
  {
    match v
    case Obj(fields) => Returned(key in fields)
    case Arr(items) => Returned(Str(key) in items)
    case Str(s) => Returned(IsSubstring(key, s))
    case _ => Raised(NotIterable(TypeName(v)))
  }

  /** `v[key]` for a string `key`. */
  function GetItem(v: Json, key: string): (r: Outcome<Json>)
    ensures r.Returned? <==> v.Obj? && key in v.fields
    ensures r.Returned? ==> r.value == v.fields[key]
  {
    match v
    case Obj(fields) => if key in fields then Returned(fields[key]) else Raised(KeyMissing(key))
    case Str(_) => Raised(IndexNotInteger(TypeName(v)))
    case Arr(_) => Raised(IndexNotInteger(TypeName(v)))
    case _ => Raised(NotSubscriptable(TypeName(v)))
  }

  /** `max(s)`, which raises ValueError on an empty sequence (represented
      here by None). */
  function Max(s: seq<real>): (m: Option<real>)
    ensures m.None? <==> s == []
    ensures m.Some? ==> m.value in s && forall x :: x in s ==> x <= m.value
  {
    if s == [] then None
    else
      assert forall x :: x in s ==> x == s[0] || x in s[1..];
      match Max(s[1..])
      case None => Some(s[0])
      case Some(rest) => Some(if s[0] >= rest then s[0] else rest)
  }
}
