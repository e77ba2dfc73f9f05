/**
 * Choosing the data file of a basin from the result of a recursive file
 * search. The search itself (its pattern and the order in which it lists
 * files) is outside the model: its result is given as a sequence of paths.
 */
module FileMatch {
  import opened Wrappers
  import opened Errors

  /**
   * The first path the search returned; FileNotFoundError exactly when it
   * returned none. Shared by the forcing loader and the discharge loader.
   */
  function SelectFile(basin: string, matches: seq<string>): (r: Result<string, Error>)
    ensures r.Err? <==> |matches| == 0
    ensures r.Ok? ==> r.value == matches[0] && r.value in matches
    ensures r.Err? ==> r.error == NoFileForBasin(basin)
  {
    if |matches| > 0 then Ok(matches[0]) else Err(NoFileForBasin(basin))
  }
}
