/** The JavaScript values a job record's attributes can hold, with the two
    conversions the search applies to them: truthiness (`val && …`) and
    conversion to text (`val.toString()`). */
module JsValues {
  import opened Numerals
  import opened JsStrings

  /** Numbers are integer-valued; `Obj` is any plain nested object. */
  datatype Value =
    | Undefined
    | Null
    | Bool(b: bool)
    | Num(n: int)
    | Str(s: string)
    | Arr(items: seq<Value>)
    | Obj

  /** JavaScript truthiness: `undefined`, `null`, `false`, `0` and `""` are
      falsy; every array and object, even an empty one, is truthy. */
  predicate Truthy(v: Value) {
    match v
    case Undefined => false
    case Null => false
    case Bool(b) => b
    case Num(n) => n != 0
    case Str(s) => |s| > 0
    case Arr(_) => true
    case Obj => true
  }

  /** `String(v)`. On every truthy value this is also what `v.toString()`
      returns; `toString` would throw on `null` and `undefined`, which the
      search never converts because it tests truthiness first. */
  function ToStr(v: Value): (r: string)
    ensures |r| == 0 ==> v.Str? || v.Arr?
    decreases v, 1
  {
    match v
    case Undefined => "undefined"
    case Null => "null"
    case Bool(b) => if b then "true" else "false"
    case Num(n) => NumberToString(n)
    case Str(s) => s
    case Obj => "[object Object]"
    case Arr(items) => Join(items)
  }

  /** `items.join(",")`, which writes "" for a `null` or `undefined`
      element and `String(x)` for any other element `x`. */
  function Join(items: seq<Value>): (r: string)
    ensures |r| == 0 ==> |items| <= 1
    decreases items, 0
  {
    if |items| == 0 then ""
    else
      var first := ElementText(items[0]);
      if |items| == 1 then first else first + "," + Join(items[1..])
  }

  /** The text an array element contributes to the array's text. */
  function ElementText(v: Value): string
    decreases v, 2
  {
    if v.Undefined? || v.Null? then "" else ToStr(v)
  }

  /** The falsy values are exactly `undefined`, `null`, `false`, `0` and
      `""`. */
  lemma FalsyValuesExactly(v: Value)
    ensures !Truthy(v) <==>
      v == Undefined || v == Null || v == Bool(false) || v == Num(0) || v == Str("")
  {
  }

  /** The text of an array of two or more elements: the first element's
      text, a comma, then the text of the rest. */
  lemma JoinOfLonger(items: seq<Value>)
    requires |items| > 1
    ensures Join(items) == ElementText(items[0]) + "," + Join(items[1..])
  {
  }

  /** The text of an array holds the text of each of its elements that is
      neither `null` nor `undefined`. */
  lemma {:induction false} JoinContainsEachElement(items: seq<Value>, i: nat)
    requires i < |items| && !items[i].Undefined? && !items[i].Null?
    ensures exists k :: OccursAt(Join(items), ToStr(items[i]), k)
    decreases i
  {
    var first := ElementText(items[0]);
    if |items| > 1 {
      JoinOfLonger(items);
    } else {
      assert Join(items) == first;
    }
    if i == 0 {
      assert OccursAt(first, ToStr(items[0]), 0);
      if |items| > 1 {
        OccursInPrefix(first, "," + Join(items[1..]), first, 0);
        assert first + "," + Join(items[1..]) == first + ("," + Join(items[1..]));
      }
      assert OccursAt(Join(items), ToStr(items[i]), 0);
    } else {
      JoinContainsEachElement(items[1..], i - 1);
      var k :| OccursAt(Join(items[1..]), ToStr(items[1..][i - 1]), k);
      assert items[1..][i - 1] == items[i];
      OccursInSuffix(first + ",", Join(items[1..]), ToStr(items[i]), k);
    }
  }
}
