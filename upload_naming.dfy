/**
 * The name under which both servers' upload middleware stores an uploaded file on disk:
 * `'pdf-' + Date.now() + '-' + <random text> + '-' + originalname.replace(/\s+/g, '_')`.
 * The clock reading and the random text are parameters.
 */
module UploadNaming {

  import opened JsText

  function StoredFilename(stamp: nat, random: string, originalName: string): (r: string)
    ensures |r| >= 4 && r[..4] == "pdf-"
    ensures var tail := CollapseSpaceRuns(originalName);
      |r| > |tail| && r[|r| - |tail|..] == tail && r[|r| - |tail| - 1] == '-'
    ensures NoSpace(random) ==> NoSpace(r)
  {
    var r := "pdf-" + NatText(stamp) + "-" + random + "-" + CollapseSpaceRuns(originalName);
    assert NatText(stamp) == IntText(stamp);
    r
  }
}
