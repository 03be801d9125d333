/** The redirect-list loading loop that encode.js and core.js both run,
    written as pure functions over an explicit state: the error list, the
    combined redirect list and the duplicate table. The class in loader.dfy
    runs the same loop step by step and is proved against these functions. */
module Pipeline {
  import opened Wrappers
  import opened JsText
  import opened Yaml

  /** Provenance of a record: its file and its 1-based entry number. */
  datatype Site = Site(file: string, index: nat)

  /** The copy `{...entry, file, index}` that the duplicate table keeps,
      filed under the record's normalized `from`. */
  datatype Occurrence = Occurrence(key: string, site: Site, record: Fields)

  /** The errors the scripts collect, one constructor per message. */
  datatype Error =
    | ParseFailed(file: string)
    | NotAList(file: string)
    | NotADict(at: Site)
    | FromInvalid(at: Site)
    | ToInvalid(at: Site)
    | NoRedirects
    | Duplicate(key: string, count: nat, sites: seq<Site>)
    | ListNotFound

  /** The `duplicates` object: its own keys in insertion order, and the
      array of copies filed under each key. */
  datatype Table = Table(keys: seq<string>, slots: map<string, seq<Occurrence>>)

  const EmptyTable := Table([], map[])

  /** The script's module-level state: `errors`, `list` and `duplicates`. */
  datatype State = State(errors: seq<Error>, list: seq<Fields>, table: Table)

  const Empty := State([], [], EmptyTable)

  // ---------------------------------------------------------------------
  // Messages

  /** `${file} entry ${index}` */
  function Trace(at: Site): string {
    at.file + " entry " + NatToString(at.index)
  }

  /** `entries.map(({ file, index }) => "\n    " + trace).join("")` */
  function SiteLines(sites: seq<Site>): string {
    if sites == [] then ""
    else SiteLines(sites[..|sites| - 1]) + "\n    " + Trace(sites[|sites| - 1])
  }

  /** The text each error is reported with. */
  function Message(e: Error): (r: string)
    ensures e.NotADict? || e.FromInvalid? || e.ToInvalid? ==> Trace(e.at) <= r
  {
    match e
    case ParseFailed(file) => "Couldn't parse " + file + ". Make sure it is valid YAML."
    case NotAList(file) => file + " is not a list"
    case NotADict(at) => Trace(at) + " is not a dict"
    case FromInvalid(at) => Trace(at) + " \"from\" field invalid"
    case ToInvalid(at) => Trace(at) + " \"to\" field invalid"
    case NoRedirects => "No redirects"
    case Duplicate(key, count, sites) =>
      "\"from: " + key + "\" appears " + NatToString(count) + " time(s): " + SiteLines(sites)
    case ListNotFound => "Couldn't find encoded redirects list in redirect script"
  }

  /** `${errors.length} error(s)` */
  function CountLine(n: nat): string {
    NatToString(n) + " error(s)"
  }

  /** The messages of a list of errors, in order. */
  function Messages(errors: seq<Error>): (r: seq<string>)
    ensures |r| == |errors|
    ensures forall i | 0 <= i < |errors| :: r[i] == Message(errors[i])
  {
    seq(|errors|, i requires 0 <= i < |errors| => Message(errors[i]))
  }

  /** How a script ends: its exit status and the lines it writes to standard
      error and standard output. */
  datatype Exit = Exit(status: int, stderr: seq<string>, stdout: seq<string>)

  // ---------------------------------------------------------------------
  // Validation and normalization of one record

  /** `typeof x === "string" && x.trim()` */
  predicate ValidText(o: Option<Value>) {
    o.Some? && o.value.Str? && Trim(o.value.s) != []
  }

  /** Length of the run of `/` that `^(\/+)` matches at the start of `s`. */
  function LeadingSlashes(s: string): (n: nat)
    ensures n <= |s|
    ensures forall i | 0 <= i < n :: s[i] == '/'
    ensures n < |s| ==> s[n] != '/'
  {
    if s != [] && s[0] == '/' then 1 + LeadingSlashes(s[1..]) else 0
  }

  /** `from.toLowerCase().replace(/^(\/+)/, "")`: no trimming. */
  function NormalizeFrom(s: string): (r: string)
    ensures r == [] || r[0] != '/'
    ensures |r| <= |s|
  {
    var lower := ToLower(s);
    lower[LeadingSlashes(lower)..]
  }

  /** The record survives the dict check and the `from` check. */
  predicate Accepted(entry: Value)
    requires entry != Null
  {
    IsObject(entry) && ValidText(Get(entry, "from"))
  }

  /** The normalized `from` of an accepted record: its duplicate-table key. */
  function KeyOf(entry: Value): string
    requires entry != Null && Accepted(entry)
  {
    NormalizeFrom(entry.fields["from"].s)
  }

  /** The record after `entry.from = ...`: only `from` is rewritten, no
      field is added or removed. */
  function Rewrite(entry: Value): (r: Fields)
    requires entry != Null && Accepted(entry)
    ensures r.Keys == entry.fields.Keys
    ensures forall k | k in r && k != "from" :: r[k] == entry.fields[k]
    ensures r["from"] == Str(KeyOf(entry))
  {
    entry.fields["from" := Str(KeyOf(entry))]
  }

  /** The errors one record adds: a scalar is not a dict; an object with a
      bad `from` gets one error and is dropped; an accepted record with a bad
      `to` gets one error and is still kept. */
  function RecordErrors(at: Site, entry: Value): (r: seq<Error>)
    requires entry != Null
    ensures |r| <= 1
    ensures r == [] <==> Accepted(entry) && ValidText(Get(entry, "to"))
  {
    if !IsObject(entry) then [NotADict(at)]
    else if !ValidText(Get(entry, "from")) then [FromInvalid(at)]
    else if !ValidText(Get(entry, "to")) then [ToInvalid(at)]
    else []
  }

  /** What one record adds to the list and the duplicate table. */
  function RecordEntry(at: Site, entry: Value): (r: Option<Occurrence>)
    requires entry != Null
    ensures r.Some? <==> Accepted(entry)
    ensures r.Some? ==> r.value.site == at && "from" in r.value.record && r.value.record["from"] == Str(r.value.key)
  {
    if Accepted(entry) then Some(Occurrence(KeyOf(entry), at, Rewrite(entry))) else None
  }

  // ---------------------------------------------------------------------
  // The duplicate table

  /** Own keys listed once each, and exactly the keys that have a slot. */
  ghost predicate TableValid(t: Table) {
    && (forall k :: k in t.slots <==> k in t.keys)
    && (forall a, b | 0 <= a < b < |t.keys| :: t.keys[a] != t.keys[b])
  }

  /** `duplicates[key] ??= []; duplicates[key].push(copy)` on a table whose
      only keys are its own. */
  function FileUnder(t: Table, o: Occurrence): (r: Table)
    ensures r.keys == t.keys + (if o.key in t.slots then [] else [o.key])
    ensures o.key in r.slots
    ensures r.slots[o.key] == (if o.key in t.slots then t.slots[o.key] else []) + [o]
    ensures forall k | k in t.slots && k != o.key :: k in r.slots && r.slots[k] == t.slots[k]
    ensures forall k | k in r.slots && k != o.key :: k in t.slots
    ensures TableValid(t) ==> TableValid(r)
  {
    if o.key in t.slots then Table(t.keys, t.slots[o.key := t.slots[o.key] + [o]])
    else Table(t.keys + [o.key], t.slots[o.key := [o]])
  }

  /** Names of `Object.prototype` properties that are already lower case, so
      that a normalized `from` can spell them. */
  predicate Inherited(key: string) {
    key == "constructor" || key == "__proto__"
  }

  /** The same filing on a JavaScript `{}` as written: for a key the object
      inherits, `??=` keeps the inherited value and the following `.push`
      throws a TypeError, shown here as `None`. */
  function FileUnderAsWritten(t: Table, o: Occurrence): (r: Option<Table>)
    ensures r.None? <==> o.key !in t.slots && Inherited(o.key)
    ensures r.Some? ==> r.value == FileUnder(t, o)
  {
    if o.key !in t.slots && Inherited(o.key) then None else Some(FileUnder(t, o))
  }

  /** Filing a sequence of occurrences one after the other. */
  function Tabulate(t: Table, occs: seq<Occurrence>): (r: Table)
    ensures TableValid(t) ==> TableValid(r)
    decreases |occs|
  {
    if occs == [] then t else FileUnder(Tabulate(t, occs[..|occs| - 1]), occs[|occs| - 1])
  }

  /** The occurrences filed under `k`, in order. */
  function Filter(occs: seq<Occurrence>, k: string): (r: seq<Occurrence>)
    ensures forall i | 0 <= i < |r| :: r[i] in occs && r[i].key == k
    decreases |occs|
  {
    if occs == [] then []
    else
      var last := occs[|occs| - 1];
      Filter(occs[..|occs| - 1], k) + (if last.key == k then [last] else [])
  }

  /** The records of a sequence of occurrences, in order. */
  function Records(occs: seq<Occurrence>): (r: seq<Fields>)
    ensures |r| == |occs|
    decreases |occs|
  {
    if occs == [] then [] else Records(occs[..|occs| - 1]) + [occs[|occs| - 1].record]
  }

  function Sites(occs: seq<Occurrence>): seq<Site> {
    seq(|occs|, i requires 0 <= i < |occs| => occs[i].site)
  }

  /** One report per key (in the order given) whose array has two or more
      copies; `count <= 1` is skipped. */
  function Reports(t: Table, keys: seq<string>): (r: seq<Error>)
    requires forall i | 0 <= i < |keys| :: keys[i] in t.slots
    ensures forall i | 0 <= i < |r| :: r[i].Duplicate? && r[i].key in keys
    decreases |keys|
  {
    if keys == [] then []
    else
      var k := keys[|keys| - 1];
      var occs := t.slots[k];
      Reports(t, keys[..|keys| - 1])
        + (if |occs| <= 1 then [] else [Duplicate(k, |occs|, Sites(occs))])
  }

  /** The loop over `Object.entries(duplicates)`. */
  function DuplicateReports(t: Table): seq<Error>
    requires TableValid(t)
  {
    Reports(t, t.keys)
  }

  // ---------------------------------------------------------------------
  // The loading loop as a fold over files and their entries

  /** One pass of the inner loop body. */
  function LoadRecord(st: State, at: Site, entry: Value): (r: State)
    requires entry != Null
    ensures TableValid(st.table) ==> TableValid(r.table)
  {
    var errors := st.errors + RecordErrors(at, entry);
    match RecordEntry(at, entry)
    case None => State(errors, st.list, st.table)
    case Some(o) => State(errors, st.list + [o.record], FileUnder(st.table, o))
  }

  /** The inner loop over `Object.entries(data)`; entry `n` is `items[n - 1]`. */
  function LoadItems(st: State, file: string, items: seq<Value>): (r: State)
    requires ItemsNullFree(items)
    ensures TableValid(st.table) ==> TableValid(r.table)
    decreases |items|
  {
    if items == [] then st
    else
      var n := |items|;
      LoadRecord(LoadItems(st, file, items[..n - 1]), Site(file, n), items[n - 1])
  }

  /** One pass of the outer loop: a parse failure or a non-list top level
      adds one error and skips the file. */
  function LoadFile(st: State, f: SourceFile): (r: State)
    requires FileNullFree(f)
    ensures TableValid(st.table) ==> TableValid(r.table)
  {
    match f.parsed
    case ParseError => st.(errors := st.errors + [ParseFailed(f.name)])
    case Parsed(data) =>
      if data.Seq? then LoadItems(st, f.name, data.items)
      else st.(errors := st.errors + [NotAList(f.name)])
  }

  /** The outer loop over the files in the order the glob lists them. */
  function LoadFiles(st: State, files: seq<SourceFile>): (r: State)
    requires NullFree(files)
    ensures TableValid(st.table) ==> TableValid(r.table)
    decreases |files|
  {
    if files == [] then st
    else LoadFile(LoadFiles(st, files[..|files| - 1]), files[|files| - 1])
  }

  /** After the loop: "No redirects" for an empty list, then the duplicate
      reports. */
  function Finish(st: State): State
    requires TableValid(st.table)
  {
    var empty := if st.list == [] then [NoRedirects] else [];
    st.(errors := st.errors + empty + DuplicateReports(st.table))
  }

  /** The whole loading stage, from empty module state. */
  function Load(files: seq<SourceFile>): State
    requires NullFree(files)
  {
    Finish(LoadFiles(Empty, files))
  }

  // ---------------------------------------------------------------------
  // The loading loop as written: filing under an inherited key throws, and
  // the exception ends the script (`None`)

  function LoadRecordAsWritten(st: State, at: Site, entry: Value): (r: Option<State>)
    requires entry != Null
    ensures TableValid(st.table) && r.Some? ==> TableValid(r.value.table)
  {
    var errors := st.errors + RecordErrors(at, entry);
    match RecordEntry(at, entry)
    case None => Some(State(errors, st.list, st.table))
    case Some(o) =>
      match FileUnderAsWritten(st.table, o)
      case None => None
      case Some(t) => Some(State(errors, st.list + [o.record], t))
  }

  function LoadItemsAsWritten(st: State, file: string, items: seq<Value>): (r: Option<State>)
    requires ItemsNullFree(items)
    ensures TableValid(st.table) && r.Some? ==> TableValid(r.value.table)
    decreases |items|
  {
    if items == [] then Some(st)
    else
      var n := |items|;
      match LoadItemsAsWritten(st, file, items[..n - 1])
      case None => None
      case Some(prev) => LoadRecordAsWritten(prev, Site(file, n), items[n - 1])
  }

  function LoadFileAsWritten(st: State, f: SourceFile): (r: Option<State>)
    requires FileNullFree(f)
    ensures TableValid(st.table) && r.Some? ==> TableValid(r.value.table)
  {
    match f.parsed
    case ParseError => Some(st.(errors := st.errors + [ParseFailed(f.name)]))
    case Parsed(data) =>
      if data.Seq? then LoadItemsAsWritten(st, f.name, data.items)
      else Some(st.(errors := st.errors + [NotAList(f.name)]))
  }

  function LoadFilesAsWritten(st: State, files: seq<SourceFile>): (r: Option<State>)
    requires NullFree(files)
    ensures TableValid(st.table) && r.Some? ==> TableValid(r.value.table)
    decreases |files|
  {
    if files == [] then Some(st)
    else
      match LoadFilesAsWritten(st, files[..|files| - 1])
      case None => None
      case Some(prev) => LoadFileAsWritten(prev, files[|files| - 1])
  }

  /** The whole loading stage as written; `None` when it throws. */
  function LoadAsWritten(files: seq<SourceFile>): Option<State>
    requires NullFree(files)
  {
    assert TableValid(Empty.table);
    match LoadFilesAsWritten(Empty, files)
    case None => None
    case Some(st) => Some(Finish(st))
  }

  /** Some accepted record is filed under a key the table inherits. */
  predicate Crashes(occs: seq<Occurrence>) {
    exists i | 0 <= i < |occs| :: Inherited(occs[i].key)
  }

  // ---------------------------------------------------------------------
  // Reference definitions: what each file contributes, on its own

  function ItemErrors(file: string, items: seq<Value>): seq<Error>
    requires ItemsNullFree(items)
    decreases |items|
  {
    if items == [] then []
    else
      var n := |items|;
      ItemErrors(file, items[..n - 1]) + RecordErrors(Site(file, n), items[n - 1])
  }

  function ItemEntries(file: string, items: seq<Value>): seq<Occurrence>
    requires ItemsNullFree(items)
    decreases |items|
  {
    if items == [] then []
    else
      var n := |items|;
      var o := RecordEntry(Site(file, n), items[n - 1]);
      ItemEntries(file, items[..n - 1]) + (if o.Some? then [o.value] else [])
  }

  function FileErrors(f: SourceFile): seq<Error>
    requires FileNullFree(f)
  {
    match f.parsed
    case ParseError => [ParseFailed(f.name)]
    case Parsed(data) => if data.Seq? then ItemErrors(f.name, data.items) else [NotAList(f.name)]
  }

  function FileEntries(f: SourceFile): seq<Occurrence>
    requires FileNullFree(f)
  {
    match f.parsed
    case ParseError => []
    case Parsed(data) => if data.Seq? then ItemEntries(f.name, data.items) else []
  }

  /** The errors the loop collects: each file's, in file order. */
  function LoopErrors(files: seq<SourceFile>): seq<Error>
    requires NullFree(files)
    decreases |files|
  {
    if files == [] then []
    else LoopErrors(files[..|files| - 1]) + FileErrors(files[|files| - 1])
  }

  /** The accepted records of all files: file order, then position order. */
  function Entries(files: seq<SourceFile>): seq<Occurrence>
    requires NullFree(files)
    decreases |files|
  {
    if files == [] then []
    else Entries(files[..|files| - 1]) + FileEntries(files[|files| - 1])
  }

  /** Positions of a file's list whose record passes both checks. */
  function AcceptedPositions(items: seq<Value>): set<nat>
    requires ItemsNullFree(items)
  {
    set j: nat | j < |items| && Accepted(items[j])
  }

  /** Number of records, over all files, that pass both checks. */
  function AcceptedCount(files: seq<SourceFile>): nat
    requires NullFree(files)
    decreases |files|
  {
    if files == [] then 0
    else
      var f := files[|files| - 1];
      AcceptedCount(files[..|files| - 1])
        + (if f.parsed.Parsed? && f.parsed.data.Seq? then |AcceptedPositions(f.parsed.data.items)| else 0)
  }

  /** Number of duplicate reports for key `k` in an error list. */
  function ReportsFor(errors: seq<Error>, k: string): nat
    decreases |errors|
  {
    if errors == [] then 0
    else
      var e := errors[|errors| - 1];
      ReportsFor(errors[..|errors| - 1], k) + (if e.Duplicate? && e.key == k then 1 else 0)
  }
}
