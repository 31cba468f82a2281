/** parse.py: the most probable failure of a problem file and its most
    probable response, embedded into a plan. */
module Identification {
  import opened Wrappers
  import opened Dict
  import opened ProblemFile
  import opened Selection

  /** Python's message for `max` of an empty dictionary. */
  const EmptyMax: string := "max() arg is an empty sequence"

  /** `identify_failure_and_response_from_file` on a plan and the content of
      the problem file. The failure is the first key of largest probability;
      without any failure `max` raises. The response goes after every
      action mentioning both `goto_waypoint` and `visitor_area`, with the
      literal names `robot` and `visitor`. */
  method IdentifyFailureAndResponse(plan: seq<string>, content: string) returns (r: Result<seq<string>>)
    ensures Parse(content).Err? ==> r == Err(Parse(content).error)
    ensures Parse(content).Ok? && Parse(content).value.failures == [] ==> r == Err(EmptyMax)
    ensures Parse(content).Ok? && Parse(content).value.failures != [] ==>
      var probabilities := Parse(content).value;
      var failure := ArgMax(probabilities.failures).value;
      var response := BestResponse(probabilities, failure);
      r == Ok(if Falsy(response) then plan
              else Annotated(plan, MentionsVisitorArea, ResponseAction("robot", response.value, failure, "visitor")))
  {
    var parsed := ParseProblemFile(content);
    if parsed.Err? {
      return Err(parsed.error);
    }
    var failure := ArgMax(parsed.value.failures);
    if failure.None? {
      return Err(EmptyMax);
    }
    var response := BestResponse(parsed.value, failure.value);
    if response.None? || response.value == "" {
      return Ok(plan);
    }
    var action := ResponseAction("robot", response.value, failure.value, "visitor");
    var updated := InsertAfterAnchors(plan, MentionsVisitorArea, action);
    return Ok(updated);
  }
}
