/** A job posting as the application holds it: a plain JavaScript object,
    that is, an ordered list of properties with distinct names. */
module Jobs {
  import opened JsValues

  datatype Attr = Attr(key: string, value: Value)

  predicate DistinctKeys(attrs: seq<Attr>) {
    forall i, j :: 0 <= i < j < |attrs| ==> attrs[i].key != attrs[j].key
  }

  datatype Record = Record(attrs: seq<Attr>)

  /** An object never has two own properties with the same name. */
  type Job = r: Record | DistinctKeys(r.attrs) witness Record([])

  /** `Object.values(job)`: the property values in property order. */
  function Values(job: Job): (vs: seq<Value>)
    ensures |vs| == |job.attrs|
    ensures forall i :: 0 <= i < |vs| ==> vs[i] == job.attrs[i].value
  {
    seq(|job.attrs|, i requires 0 <= i < |job.attrs| => job.attrs[i].value)
  }

  function GetIn(attrs: seq<Attr>, key: string): (v: Value)
    ensures (exists i :: 0 <= i < |attrs| && attrs[i].key == key && attrs[i].value == v)
            || (v == Undefined && forall i :: 0 <= i < |attrs| ==> attrs[i].key != key)
  {
    if |attrs| == 0 then Undefined
    else if attrs[0].key == key then attrs[0].value
    else
      var v := GetIn(attrs[1..], key);
      assert forall i :: 0 < i < |attrs| ==> attrs[i] == attrs[1..][i - 1];
      v
  }

  /** Property access `job[key]`: the value of the property named `key`, or
      `undefined` when the object has no such property. */
  function Get(job: Job, key: string): (v: Value)
    ensures forall i :: 0 <= i < |job.attrs| && job.attrs[i].key == key ==> v == job.attrs[i].value
    ensures (forall i :: 0 <= i < |job.attrs| ==> job.attrs[i].key != key) ==> v == Undefined
  {
    GetIn(job.attrs, key)
  }

  /** `job.id`. */
  function IdOf(job: Job): Value {
    Get(job, "id")
  }

  /** `Object.values` and property access agree: the value listed for
      each property is what reading that property gives, and every
      property that is present has its value listed. */
  lemma ValuesAreTheProperties(job: Job)
    ensures forall i :: 0 <= i < |job.attrs| ==> Values(job)[i] == Get(job, job.attrs[i].key)
    ensures forall key :: Get(job, key) != Undefined ==> Get(job, key) in Values(job)
  {
    forall key | Get(job, key) != Undefined
      ensures Get(job, key) in Values(job)
    {
      var i :| 0 <= i < |job.attrs| && job.attrs[i].key == key;
      assert Values(job)[i] == Get(job, key);
    }
  }
}
