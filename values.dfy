/**
 * The values the script works on once `json.load` has run, and the few
 * Python behaviours of those values that the script relies on: `dict.get`,
 * `==` (under which `True == 1`), hashing of dictionary keys and `str()`.
 */
module Json {
  import opened Outcomes

  /** A JSON value as Python holds it after parsing (floats are not modelled). */
  datatype Value =
    | Null
    | Bool(b: bool)
    | Int(n: int)
    | Str(s: string)
    | List(items: seq<Value>)
    | Object(fields: map<string, Value>)

  /** A manifest is a parsed JSON object: a dictionary with string keys. */
  type Manifest = map<string, Value>

  /** `m.get(key, default)` */
  function GetDefault(m: Manifest, key: string, default: Value): Value
  {
    if key in m then m[key] else default
  }

  /** `m.get(key)`: Python's None, which is also what JSON `null` parses to, when absent. */
  function Get(m: Manifest, key: string): Value
  {
    GetDefault(m, key, Null)
  }

  /** The value with every boolean replaced by the integer Python treats it as. */
  function Norm(v: Value): Value
  {
    match v
    case Bool(b) => Int(if b then 1 else 0)
    case List(items) => List(seq(|items|, i requires 0 <= i < |items| => Norm(items[i])))
    case Object(fields) => Object(map k | k in fields :: Norm(fields[k]))
    case _ => v
  }

  /** Python's `==` on parsed JSON values: structural, with `True == 1` and `False == 0`. */
  predicate PyEq(a: Value, b: Value)
  {
    Norm(a) == Norm(b)
  }

  /** Strings compare equal under Python's `==` only to the very same string. */
  lemma PyEqStr(x: string, v: Value)
    ensures PyEq(Str(x), v) <==> v == Str(x)
  {
  }

  /** Only a list or a dictionary cannot be used as a dictionary key. */
  predicate Hashable(v: Value)
  {
    !v.List? && !v.Object?
  }

  /**
   * The dictionary key a hashable value stands for: Python's dictionaries
   * identify keys that are `==` (so `True` and `1` are one key).
   */
  function HashKey(v: Value): (k: Value)
    requires Hashable(v)
    ensures Hashable(k) && !k.Bool?
  {
    Norm(v)
  }

  /**
   * Which names share one dictionary slot: a value shares it only with
   * itself and, for a boolean, with the integer it stands for (`True` with
   * `1`, `False` with `0`). Strings, `None` and other integers are keys of
   * their own.
   */
  lemma HashKeyShared(v: Value, w: Value)
    requires Hashable(v) && Hashable(w)
    ensures HashKey(v) == HashKey(w) <==>
      || v == w
      || (v.Bool? && w == Int(if v.b then 1 else 0))
      || (w.Bool? && v == Int(if w.b then 1 else 0))
  {
  }

  /** The name of a value's Python type, as a TypeError message shows it. */
  function TypeName(v: Value): string
  {
    match v
    case Null => "NoneType"
    case Bool(_) => "bool"
    case Int(_) => "int"
    case Str(_) => "str"
    case List(_) => "list"
    case Object(_) => "dict"
  }

  /** The error Python raises when an unhashable value is used as a key. */
  function Unhashable(v: Value): Error
  {
    TypeError("unhashable type: '" + TypeName(v) + "'")
  }

  function DigitChar(d: nat): char
    requires d < 10
  {
    ('0' as int + d) as char
  }

  /** The decimal digits of `n`, as Python's `str(n)` writes them. */
  function NatToString(n: nat): (s: string)
    ensures |s| >= 1
    ensures forall i | 0 <= i < |s| :: '0' <= s[i] <= '9'
    ensures |s| > 1 ==> s[0] != '0'
  {
    if n < 10 then [DigitChar(n)] else NatToString(n / 10) + [DigitChar(n % 10)]
  }

  /** The number a string of decimal digits denotes. */
  function DecimalValue(s: string): nat
    requires forall i | 0 <= i < |s| :: '0' <= s[i] <= '9'
  {
    if s == [] then 0 else 10 * DecimalValue(s[..|s| - 1]) + (s[|s| - 1] as int - '0' as int)
  }

  /** Rendering a natural number in decimal loses nothing. */
  lemma {:induction false} NatToStringRoundTrip(n: nat)
    ensures DecimalValue(NatToString(n)) == n
  {
    var s := NatToString(n);
    if n >= 10 {
      NatToStringRoundTrip(n / 10);
      assert s[..|s| - 1] == NatToString(n / 10);
      assert s[|s| - 1] as int - '0' as int == n % 10;
    }
  }

  function IntToString(n: int): string
  {
    if n < 0 then "-" + NatToString(-n) else NatToString(n)
  }

  /**
   * `str(v)`, which `str.format` applies to a `{version}` field. Lists and
   * dictionaries would be rendered with Python's `repr`, which this model
   * does not spell out: they give None.
   */
  function Display(v: Value): (r: Option<string>)
    ensures r.None? <==> !Hashable(v)
    ensures v.Str? ==> r == Some(v.s)
  {
    match v
    case Null => Some("None")
    case Bool(b) => Some(if b then "True" else "False")
    case Int(n) => Some(IntToString(n))
    case Str(s) => Some(s)
    case List(_) => None
    case Object(_) => None
  }
}

/** Python's exceptions as values, and the results that carry them. */
module Outcomes {
  datatype Option<+T> = None | Some(value: T) {
    function GetOr(default: T): T
    {
      if Some? then value else default
    }
  }

  /** The exceptions the script can raise; any of them ends the run. */
  datatype Error =
    | KeyError(key: string)
    | AttributeError(message: string)
    | ValueError(message: string)
    | TypeError(message: string)
      /** `str()` of a list or dictionary version, which is not modelled. */
    | UnrenderedVersion

  datatype Result<+T> = Ok(value: T) | Err(error: Error)

  /** The result of a procedure that returns nothing or raises. */
  datatype Outcome = Pass | Fail(error: Error)

  /**
   * A loop whose body may raise: `f` applied to each element in order, or
   * the exception of the first element on which it raises.
   */
  function MapUntilError<T, U>(f: T -> Result<U>, xs: seq<T>): (r: Result<seq<U>>)
    ensures r.Ok? ==> |r.value| == |xs|
  {
    if xs == [] then Ok([])
    else
      var first := f(xs[0]);
      if first.Err? then Err(first.error)
      else
        var rest := MapUntilError(f, xs[1..]);
        if rest.Err? then rest else Ok([first.value] + rest.value)
  }

  /** A loop that completes has run the body on every element. */
  lemma {:induction false} MapUntilErrorEach<T, U>(f: T -> Result<U>, xs: seq<T>, k: nat)
    requires MapUntilError(f, xs).Ok? && k < |xs|
    ensures f(xs[k]).Ok? && MapUntilError(f, xs).value[k] == f(xs[k]).value
  {
    if k > 0 {
      assert xs[1..][k - 1] == xs[k];
      MapUntilErrorEach(f, xs[1..], k - 1);
    }
  }

  /** A loop whose body raises on no element completes. */
  lemma {:induction false} MapUntilErrorSucceeds<T, U>(f: T -> Result<U>, xs: seq<T>)
    requires forall k | 0 <= k < |xs| :: f(xs[k]).Ok?
    ensures MapUntilError(f, xs).Ok?
  {
    if xs != [] {
      var rest := xs[1..];
      assert f(xs[0]).Ok?;
      forall k | 0 <= k < |rest|
        ensures f(rest[k]).Ok?
      {
        assert rest[k] == xs[k + 1];
      }
      MapUntilErrorSucceeds(f, rest);
    }
  }

  /** When the body raises at `i` and on no element before it, the loop fails with that exception. */
  lemma {:induction false} MapUntilErrorFirstError<T, U>(f: T -> Result<U>, xs: seq<T>, i: nat)
    requires i < |xs|
    requires forall k | 0 <= k < i :: f(xs[k]).Ok?
    requires f(xs[i]).Err?
    ensures MapUntilError(f, xs) == Err(f(xs[i]).error)
  {
    if i > 0 {
      var rest := xs[1..];
      assert f(xs[0]).Ok?;
      forall k | 0 <= k < i - 1
        ensures f(rest[k]).Ok?
      {
        assert rest[k] == xs[k + 1];
      }
      assert rest[i - 1] == xs[i];
      MapUntilErrorFirstError(f, rest, i - 1);
    }
  }

  /** Running the loop over a list that completes and then over more elements is running it over both. */
  lemma {:induction false} MapUntilErrorAppend<T, U>(f: T -> Result<U>, front: seq<T>, back: seq<T>)
    requires MapUntilError(f, front).Ok?
    ensures MapUntilError(f, front + back) ==
      if MapUntilError(f, back).Ok? then Ok(MapUntilError(f, front).value + MapUntilError(f, back).value)
      else MapUntilError(f, back)
  {
    if front == [] {
      assert front + back == back;
      assert MapUntilError(f, front).value == [];
      if MapUntilError(f, back).Ok? {
        assert [] + MapUntilError(f, back).value == MapUntilError(f, back).value;
      }
    } else {
      var whole := front + back;
      assert whole[0] == front[0];
      assert whole[1..] == front[1..] + back;
      var first := f(front[0]);
      var head := MapUntilError(f, front[1..]);
      assert first.Ok? && head.Ok?;
      assert MapUntilError(f, front).value == [first.value] + head.value;
      MapUntilErrorAppend(f, front[1..], back);
      var tail := MapUntilError(f, back);
      if tail.Ok? {
        assert MapUntilError(f, whole) == Ok([first.value] + (head.value + tail.value));
        assert [first.value] + (head.value + tail.value) == [first.value] + head.value + tail.value;
      } else {
        assert MapUntilError(f, whole) == tail;
      }
    }
  }

  /** One more element on which the body does not raise extends a completed loop by its result. */
  lemma MapUntilErrorExtends<T, U>(f: T -> Result<U>, xs: seq<T>, i: nat)
    requires i < |xs| && MapUntilError(f, xs[..i]).Ok? && f(xs[i]).Ok?
    ensures MapUntilError(f, xs[..i + 1]) == Ok(MapUntilError(f, xs[..i]).value + [f(xs[i]).value])
  {
    MapUntilErrorAppend(f, xs[..i], [xs[i]]);
    assert xs[..i] + [xs[i]] == xs[..i + 1];
    var one := [xs[i]];
    assert one[0] == xs[i] && one[1..] == [];
    assert MapUntilError(f, one[1..]) == Ok([]);
    assert MapUntilError(f, one) == Ok([f(xs[i]).value] + []);
    assert [f(xs[i]).value] + [] == [f(xs[i]).value];
  }

  /** A loop that completes up to `i` and raises at `i` fails with that exception. */
  lemma MapUntilErrorStops<T, U>(f: T -> Result<U>, xs: seq<T>, i: nat)
    requires i < |xs| && MapUntilError(f, xs[..i]).Ok? && f(xs[i]).Err?
    ensures MapUntilError(f, xs) == Err(f(xs[i]).error)
  {
    var rest := xs[i..];
    assert rest[0] == xs[i];
    MapUntilErrorAppend(f, xs[..i], rest);
    assert xs[..i] + rest == xs;
  }
}
