/** Concrete inputs and the results the model gives for them. */
module Scenarios {
  import opened ValueProbes

  lemma IntegerProbeExample()
    ensures InferParam(["7"]) == ParamInfo(IntegerType, Int(7))
  {
    assert IsIntLiteral("7");
  }

  lemma BooleanProbeExample()
    ensures InferParam(["true"]) == ParamInfo(BooleanType, Text("true"))
  {
    BooleanIsNotNumber("true");
  }
}
