// The publish script: load the redirect files, encode the list, splice the
// encoding into the redirect script, and exit with status 1 when any error
// was collected.

module EncodeScript {
  import opened Yaml
  import opened Pipeline
  import opened Base64
  import opened Splice
  import opened Loading

  /** The exit hook: every collected error in order, then the count line
      when there was any. Nothing goes to standard output. */
  function ExitReport(errors: seq<Error>): (r: Exit)
    ensures r.status == 0 <==> errors == []
    ensures r.status == 0 || r.status == 1
    ensures r.status == 1 <==> r.stderr != []
    ensures |r.stderr| == |errors| + (if errors == [] then 0 else 1)
    ensures forall i | 0 <= i < |errors| :: r.stderr[i] == Message(errors[i])
    ensures errors != [] ==> r.stderr[|errors|] == CountLine(|errors|)
    ensures r.stdout == []
  {
    var lines := Messages(errors);
    if errors == [] then Exit(0, lines, [])
    else Exit(1, lines + [CountLine(|errors|)], [])
  }

  /** The script after the loading stage. `stringify` stands for
      `JSON.stringify` followed by UTF-8 encoding; its output is encoded
      whatever it is. The old payload is looked up with the same pattern that
      the replacement uses, so the "not found" error is raised exactly when
      the replacement leaves the script as it is. */
  method Publish(files: seq<SourceFile>, stringify: seq<Fields> -> seq<Byte>, script: string)
    returns (newScript: string, report: Exit)
    requires NullFree(files)
    ensures var encoded := Encode(stringify(Load(files).list));
      newScript == Replace(script, encoded)
    ensures var errors := Load(files).errors + (if FindMatch(script, 0).None? then [ListNotFound] else []);
      report == ExitReport(errors)
  {
    var loader := Run(files);
    var encoded := Encode(stringify(loader.list));
    var oldEncoded := FindMatch(script, 0);
    if oldEncoded.None? {
      loader.AddError(ListNotFound);
    }
    newScript := Replace(script, encoded);
    report := ExitReport(loader.errors);
  }

  /** Running the publish step again on its own output, with the same files,
      writes the same script back, and finds the payload whenever the first
      run did. */
  lemma PublishIdempotent(files: seq<SourceFile>, stringify: seq<Fields> -> seq<Byte>, script: string)
    requires NullFree(files)
    ensures var encoded := Encode(stringify(Load(files).list));
      && Replace(Replace(script, encoded), encoded) == Replace(script, encoded)
      && (FindMatch(script, 0).Some? ==> FindMatch(Replace(script, encoded), 0).Some?)
  {
    var encoded := Encode(stringify(Load(files).list));
    EncodeAlphabet(stringify(Load(files).list));
    ReplaceIdempotent(script, encoded);
  }
}
