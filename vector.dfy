/** The vector of th_rust/src/ml/vector.rs; only its maximum is modelled. */
module Vectors {
  import opened Outcomes

  datatype Vector = Vector(data: seq<int>)
  {
    /** `max_norm`: the largest element under the signed order, as
        `iter().max_by(partial_cmp)`; an empty vector panics. */
    function MaxNorm(): (r: Result<int>)
      ensures r.Err? <==> |data| == 0
      ensures r.Err? ==> r.error == EmptyVector
      ensures r.Ok? ==> r.value in data
      ensures r.Ok? ==> forall k :: 0 <= k < |data| ==> data[k] <= r.value
    {
      if |data| == 0 then Err(EmptyVector) else Ok(MaxBy(data))
    }
  }

  /** `max_by` as a left fold: the running maximum is replaced by the next
      element whenever it is not smaller, so among equal maxima the last
      one wins. */
  function MaxBy(s: seq<int>): (m: int)
    requires |s| > 0
    ensures m in s
    ensures forall k :: 0 <= k < |s| ==> s[k] <= m
  {
    if |s| == 1 then s[0]
    else
      var acc := MaxBy(s[..|s| - 1]);
      if acc <= s[|s| - 1] then s[|s| - 1] else acc
  }

  /** The maximum is determined by the contents: any element bounding all
      the others is the result of max_norm. */
  lemma MaxNormUnique(v: Vector, m: int)
    requires m in v.data
    requires forall k :: 0 <= k < |v.data| ==> v.data[k] <= m
    ensures v.MaxNorm() == Ok(m)
  {
    var k :| 0 <= k < |v.data| && v.data[k] == m;
  }

  /** The comparison is signed: on all-negative data the result is
      negative, not the largest magnitude. */
  lemma MaxNormAllNegative(v: Vector)
    requires |v.data| > 0
    requires forall k :: 0 <= k < |v.data| ==> v.data[k] < 0
    ensures v.MaxNorm().Ok? && v.MaxNorm().value < 0
  {
  }

  /** [-5, 1] has norm 1 under max_norm although its largest magnitude is 5. */
  lemma MaxNormSignedExample()
    ensures Vector([-5, 1]).MaxNorm() == Ok(1)
  {
    MaxNormUnique(Vector([-5, 1]), 1);
  }
}
