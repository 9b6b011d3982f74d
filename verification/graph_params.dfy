/**
 * `GraphParams::validate` (engine/src/graph.rs): the bounds check on the
 * query of the legacy graph route. A rejection is HTTP 400.
 */
module GraphParams {
  import opened Results

  datatype GraphParams = GraphParams(numBalls: nat, maxHeight: nat, compact: bool)

  datatype StatusCode = BadRequest

  /** The three checks, in the order of the source. */
  function Validate(p: GraphParams): (r: Result<(), StatusCode>)
    ensures p.maxHeight > 32 ==> r == Err(BadRequest)
    ensures p.numBalls > 32 ==> r == Err(BadRequest)
    ensures p.maxHeight < p.numBalls ==> r == Err(BadRequest)
  {
    if p.maxHeight > 32 then Err(BadRequest)
    else if p.numBalls > 32 then Err(BadRequest)
    else if p.maxHeight < p.numBalls then Err(BadRequest)
    else Ok(())
  }

  /** Accepted exactly when `numBalls <= maxHeight <= 32`. */
  lemma ValidateIff(p: GraphParams)
    ensures Validate(p).Ok? <==> p.numBalls <= p.maxHeight <= 32
  {
  }

  /** The outcome does not depend on `compact`. */
  lemma ValidateIgnoresCompact(p: GraphParams, c: bool)
    ensures Validate(p) == Validate(p.(compact := c))
  {
  }
}
