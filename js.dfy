/** The part of the JavaScript runtime the library relies on: dynamically
    typed values with their truthiness, and arrays and objects that are
    updated in place. */
module Js {
  import opened Wrappers

  /** A JavaScript value. Numbers are integers here; objects, arrays and
      functions are compared by identity, so they are represented by an
      address. Structural equality on this datatype is `===`. */
  datatype Value =
    | Undefined
    | Null
    | Bool(b: bool)
    | Num(n: int)
    | Str(s: string)
    | Ref(address: nat)

  /** The values JavaScript treats as false in a condition. */
  predicate Falsy(v: Value)
  {
    v == Undefined || v == Null || v == Bool(false) || v == Num(0) || v == Str("")
  }

  predicate Truthy(v: Value)
  {
    !Falsy(v)
  }

  /** Property lookup `obj[key]`: a missing key reads as `undefined`. */
  function Get(props: map<string, Value>, key: string): Value
  {
    if key in props then props[key] else Undefined
  }

  /** A JavaScript array whose contents are changed in place by `push` and `pop`. */
  class JsArray<T> {
    var items: seq<T>

    constructor ()
      ensures items == []
    {
      items := [];
    }

    /** `array.push(x)`. */
    method Push(x: T)
      modifies this
      ensures items == old(items) + [x]
    {
      items := items + [x];
    }

    /** `array.pop()`: removes and returns the last element, or `undefined`
        on an empty array, which it leaves empty. */
    method Pop() returns (r: Option<T>)
      modifies this
      ensures old(items) == [] ==> r == None && items == []
      ensures old(items) != [] ==> r == Some(old(items)[|old(items)| - 1])
                                   && items == old(items)[..|old(items)| - 1]
    {
      if items == [] {
        r := None;
      } else {
        r := Some(items[|items| - 1]);
        items := items[..|items| - 1];
      }
    }
  }

  /** A plain JavaScript object whose properties are assigned in place. */
  class JsObject {
    var props: map<string, Value>

    constructor (props: map<string, Value>)
      ensures this.props == props
    {
      this.props := props;
    }
  }
}
