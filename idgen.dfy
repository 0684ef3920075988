/** How academicCreate and courseCreate pick a new id. The random draws are
 *  not modelled as randomness: they are a sequence handed in by the caller. */
module IdGeneration {
  import opened Records

  /** The id loop as written: one draw, then one fresh draw per entry already
   *  in the collection (the `for ... in` walks the entries' indices into the
   *  id variable, and the body overwrites it). No draw is ever compared with
   *  the ids in use, so the result is just the last draw. */
  method RedrawAsWritten(existing: seq<int>, draws: seq<int>) returns (id: int)
    requires |draws| == |existing| + 1
    ensures id == draws[|existing|]
  {
    id := draws[0];
    var i := 0;
    while i < |existing|
      invariant 0 <= i <= |existing|
      invariant id == draws[i]
    {
      id := draws[i + 1];
      i := i + 1;
    }
  }

  /** As soon as one id is in use, some run of draws makes the loop above
   *  hand out that id again. */
  lemma RedrawAsWrittenCanCollide(existing: seq<int>)
    requires |existing| > 0
    ensures exists draws: seq<int> :: |draws| == |existing| + 1 && draws[|existing|] in existing
  {
    var draws := seq(|existing| + 1, i => existing[0]);
    assert draws[|existing|] in existing;
  }

  /** The intended behaviour: reject every draw that is already in use and
   *  take the first one that is not; None when every draw collides. */
  method DrawFreshId(existing: seq<int>, draws: seq<int>) returns (r: Option<int>)
    ensures r.Some? ==> r.value in draws && r.value !in existing
    ensures r.None? <==> forall j | 0 <= j < |draws| :: draws[j] in existing
  {
    var i := 0;
    while i < |draws|
      invariant 0 <= i <= |draws|
      invariant forall j | 0 <= j < i :: draws[j] in existing
    {
      if draws[i] !in existing {
        assert draws[i] in draws;
        return Some(draws[i]);
      }
      i := i + 1;
    }
    r := None;
  }
}
