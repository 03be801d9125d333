// The shared loader module: the loading stage, `addError`, and the exit hook
// that sets the exit code and reports.

module CoreScript {
  import opened Yaml
  import opened Pipeline
  import opened Loading

  /** The exit hook: with errors, exit code 1, every error in order and the
      count line on standard error; without, exit code 0 and "No errors!" on
      standard output. */
  function ExitReport(errors: seq<Error>): (r: Exit)
    ensures r.status == 0 <==> errors == []
    ensures r.status == 0 || r.status == 1
    ensures errors != [] ==>
      && |r.stderr| == |errors| + 1
      && (forall i | 0 <= i < |errors| :: r.stderr[i] == Message(errors[i]))
      && r.stderr[|errors|] == CountLine(|errors|)
      && r.stdout == []
    ensures errors == [] ==> r.stderr == [] && r.stdout == ["No errors!"]
  {
    if errors != [] then Exit(1, Messages(errors) + [CountLine(|errors|)], [])
    else Exit(0, [], ["No errors!"])
  }

  /** Importing the module runs the loading stage; the exported `list` is
      the combined list, and the process ends with the exit hook's report. */
  method Run(files: seq<SourceFile>) returns (list: seq<Fields>, report: Exit)
    requires NullFree(files)
    ensures list == Load(files).list
    ensures report == ExitReport(Load(files).errors)
  {
    var loader := Loading.Run(files);
    list := loader.list;
    report := ExitReport(loader.errors);
  }
}
