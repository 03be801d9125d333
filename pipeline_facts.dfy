/** Properties of the loading stage: normalization, what each record and
    each file contributes, how the duplicate table groups records, and the
    order and content of the error list. */
module PipelineFacts {
  import opened Wrappers
  import opened JsText
  import opened Yaml
  import opened Pipeline

  // ---------------------------------------------------------------------
  // Normalization of `from`

  /** Lower-casing does not create or remove slashes. */
  lemma LeadingSlashesOfLower(s: string)
    ensures LeadingSlashes(ToLower(s)) == LeadingSlashes(s)
  {
  }

  /** The normalized `from` is the original with its whole leading run of
      `/` removed, lower-cased; stripping and lower-casing commute. */
  lemma NormalizeStripsLeadingRun(s: string)
    ensures NormalizeFrom(s) == ToLower(s[LeadingSlashes(s)..])
  {
    LeadingSlashesOfLower(s);
  }

  /** Normalizing twice is normalizing once. */
  lemma NormalizeIdempotent(s: string)
    ensures NormalizeFrom(NormalizeFrom(s)) == NormalizeFrom(s)
  {
    var r := NormalizeFrom(s);
    NormalizeStripsLeadingRun(s);
    var tail := s[LeadingSlashes(s)..];
    ToLowerIdempotent(tail);
    assert ToLower(r) == r;
    assert LeadingSlashes(r) == 0;
  }

  /** No trimming happens: a leading space protects the slash, and a `from`
      made of slashes only normalizes to the empty string. */
  lemma NormalizeExamples()
    ensures NormalizeFrom(" /X") == " /x"
    ensures NormalizeFrom("/") == ""
    ensures NormalizeFrom("//About") == "about"
  {
    NormalizeKeepsSpace();
    NormalizeStripsRun();
  }

  lemma NormalizeKeepsSpace()
    ensures NormalizeFrom(" /X") == " /x"
  {
    assert ToLower(" /X") == " /x";
  }

  lemma NormalizeStripsRun()
    ensures NormalizeFrom("//About") == "about"
  {
    assert ToLower("//About") == "//about";
    assert LeadingSlashes("//about") == 2 by {
      assert "//about"[1..] == "/about";
      assert "/about"[1..] == "about";
    }
  }

  // ---------------------------------------------------------------------
  // One record

  /** The four outcomes of the inner loop body. A scalar or an object with a
      bad `from` adds exactly one error and nothing else; an accepted record
      is appended and filed in its rewritten form, with one error when its
      `to` is bad. */
  lemma RecordOutcomes(st: State, at: Site, entry: Value)
    requires entry != Null
    ensures !IsObject(entry) ==>
      LoadRecord(st, at, entry) == st.(errors := st.errors + [NotADict(at)])
    ensures IsObject(entry) && !ValidText(Get(entry, "from")) ==>
      LoadRecord(st, at, entry) == st.(errors := st.errors + [FromInvalid(at)])
    ensures Accepted(entry) ==>
      && LoadRecord(st, at, entry).list == st.list + [Rewrite(entry)]
      && LoadRecord(st, at, entry).table == FileUnder(st.table, Occurrence(KeyOf(entry), at, Rewrite(entry)))
      && LoadRecord(st, at, entry).errors
         == st.errors + (if ValidText(Get(entry, "to")) then [] else [ToInvalid(at)])
  {
  }

  // ---------------------------------------------------------------------
  // Composition

  lemma {:induction false} RecordsAppend(a: seq<Occurrence>, b: seq<Occurrence>)
    ensures Records(a + b) == Records(a) + Records(b)
    decreases |b|
  {
    if b == [] {
      assert a + b == a;
    } else {
      assert (a + b)[..|a + b| - 1] == a + b[..|b| - 1];
      RecordsAppend(a, b[..|b| - 1]);
    }
  }

  lemma {:induction false} TabulateAppend(t: Table, a: seq<Occurrence>, b: seq<Occurrence>)
    ensures Tabulate(t, a + b) == Tabulate(Tabulate(t, a), b)
    decreases |b|
  {
    if b == [] {
      assert a + b == a;
    } else {
      var b' := b[..|b| - 1];
      assert (a + b)[..|a + b| - 1] == a + b';
      TabulateAppend(t, a, b');
    }
  }

  /** The inner loop adds a file's record errors and accepted records. */
  lemma {:induction false} LoadItemsMeaning(st: State, file: string, items: seq<Value>)
    requires ItemsNullFree(items)
    ensures LoadItems(st, file, items).errors == st.errors + ItemErrors(file, items)
    ensures LoadItems(st, file, items).list == st.list + Records(ItemEntries(file, items))
    ensures LoadItems(st, file, items).table == Tabulate(st.table, ItemEntries(file, items))
    decreases |items|
  {
    if items == [] {
      assert st.list + Records([]) == st.list;
    } else {
      var n := |items|;
      var prefix := items[..n - 1];
      LoadItemsMeaning(st, file, prefix);
      LoadItemsErrorsStep(st, file, items);
      LoadItemsListStep(st, file, items);
      LoadItemsTableStep(st, file, items);
    }
  }

  lemma LoadItemsErrorsStep(st: State, file: string, items: seq<Value>)
    requires ItemsNullFree(items) && items != []
    requires var prev := LoadItems(st, file, items[..|items| - 1]);
      && prev.errors == st.errors + ItemErrors(file, items[..|items| - 1])
    ensures LoadItems(st, file, items).errors == st.errors + ItemErrors(file, items)
  {
    var n := |items|;
    var prefix := items[..n - 1];
    var prev := LoadItems(st, file, prefix);
    var at := Site(file, n);
    var entry := items[n - 1];
    assert LoadItems(st, file, items) == LoadRecord(prev, at, entry);
    assert ItemErrors(file, items) == ItemErrors(file, prefix) + RecordErrors(at, entry);
    LoadRecordParts(prev, at, entry);
    AppendAssoc(st.errors, ItemErrors(file, prefix), RecordErrors(at, entry));
  }
  lemma LoadItemsListStep(st: State, file: string, items: seq<Value>)
    requires ItemsNullFree(items) && items != []
    requires var prev := LoadItems(st, file, items[..|items| - 1]);
      && prev.list == st.list + Records(ItemEntries(file, items[..|items| - 1]))
    ensures LoadItems(st, file, items).list == st.list + Records(ItemEntries(file, items))
  {
    var n := |items|;
    var prefix := items[..n - 1];
    var prev := LoadItems(st, file, prefix);
    var at := Site(file, n);
    var entry := items[n - 1];
    var es := ItemEntries(file, prefix);
    var o := RecordEntry(at, entry);
    assert LoadItems(st, file, items) == LoadRecord(prev, at, entry);
    ItemEntriesSnoc(file, items);
    LoadRecordParts(prev, at, entry);
    if o.Some? {
      RecordsSnoc(es, o.value);
      AppendAssoc(st.list, Records(es), [o.value.record]);
    } else {
      assert es + [] == es;
    }
  }
  lemma LoadItemsTableStep(st: State, file: string, items: seq<Value>)
    requires ItemsNullFree(items) && items != []
    requires var prev := LoadItems(st, file, items[..|items| - 1]);
      && prev.table == Tabulate(st.table, ItemEntries(file, items[..|items| - 1]))
    ensures LoadItems(st, file, items).table == Tabulate(st.table, ItemEntries(file, items))
  {
    var n := |items|;
    var prefix := items[..n - 1];
    var prev := LoadItems(st, file, prefix);
    var at := Site(file, n);
    var entry := items[n - 1];
    var es := ItemEntries(file, prefix);
    var o := RecordEntry(at, entry);
    assert LoadItems(st, file, items) == LoadRecord(prev, at, entry);
    ItemEntriesSnoc(file, items);
    LoadRecordParts(prev, at, entry);
    if o.Some? {
      assert (es + [o.value])[..|es|] == es;
    } else {
      assert es + [] == es;
    }
  }

  lemma LoadRecordParts(st: State, at: Site, entry: Value)
    requires entry != Null
    ensures LoadRecord(st, at, entry).errors == st.errors + RecordErrors(at, entry)
    ensures RecordEntry(at, entry).None? ==>
      LoadRecord(st, at, entry).list == st.list && LoadRecord(st, at, entry).table == st.table
    ensures RecordEntry(at, entry).Some? ==>
      && LoadRecord(st, at, entry).list == st.list + [RecordEntry(at, entry).value.record]
      && LoadRecord(st, at, entry).table == FileUnder(st.table, RecordEntry(at, entry).value)
  {
  }

  lemma RecordsSnoc(es: seq<Occurrence>, o: Occurrence)
    ensures Records(es + [o]) == Records(es) + [o.record]
  {
    assert (es + [o])[..|es|] == es;
  }

  lemma ItemEntriesSnoc(file: string, items: seq<Value>)
    requires ItemsNullFree(items) && items != []
    ensures var o := RecordEntry(Site(file, |items|), items[|items| - 1]);
      ItemEntries(file, items)
      == ItemEntries(file, items[..|items| - 1]) + (if o.Some? then [o.value] else [])
  {
  }

  lemma LoadFileMeaning(st: State, f: SourceFile)
    requires FileNullFree(f)
    ensures LoadFile(st, f).errors == st.errors + FileErrors(f)
    ensures LoadFile(st, f).list == st.list + Records(FileEntries(f))
    ensures LoadFile(st, f).table == Tabulate(st.table, FileEntries(f))
  {
    match f.parsed
    case ParseError =>
      assert st.list + Records([]) == st.list;
    case Parsed(data) =>
      if data.Seq? {
        LoadItemsMeaning(st, f.name, data.items);
      } else {
        assert st.list + Records([]) == st.list;
      }
  }

  /** The whole loop: the error list grows by every file's errors in file
      order, the list by every accepted record in file then position order,
      and the table files those same records. */
  lemma {:induction false} LoadFilesMeaning(st: State, files: seq<SourceFile>)
    requires NullFree(files)
    ensures LoadFiles(st, files).errors == st.errors + LoopErrors(files)
    ensures LoadFiles(st, files).list == st.list + Records(Entries(files))
    ensures LoadFiles(st, files).table == Tabulate(st.table, Entries(files))
    decreases |files|
  {
    if files == [] {
      assert st.errors + [] == st.errors;
      assert st.list + Records([]) == st.list;
    } else {
      LoadFilesMeaning(st, files[..|files| - 1]);
      LoadFilesErrorsStep(st, files);
      LoadFilesListStep(st, files);
      LoadFilesTableStep(st, files);
    }
  }

  lemma LoadFilesErrorsStep(st: State, files: seq<SourceFile>)
    requires NullFree(files) && files != []
    requires LoadFiles(st, files[..|files| - 1]).errors == st.errors + LoopErrors(files[..|files| - 1])
    ensures LoadFiles(st, files).errors == st.errors + LoopErrors(files)
  {
    var prefix, f := files[..|files| - 1], files[|files| - 1];
    var mid := LoadFiles(st, prefix);
    assert LoadFiles(st, files) == LoadFile(mid, f);
    assert LoopErrors(files) == LoopErrors(prefix) + FileErrors(f);
    LoadFileMeaning(mid, f);
    AppendAssoc(st.errors, LoopErrors(prefix), FileErrors(f));
  }

  lemma LoadFilesListStep(st: State, files: seq<SourceFile>)
    requires NullFree(files) && files != []
    requires LoadFiles(st, files[..|files| - 1]).list == st.list + Records(Entries(files[..|files| - 1]))
    ensures LoadFiles(st, files).list == st.list + Records(Entries(files))
  {
    var prefix, f := files[..|files| - 1], files[|files| - 1];
    var mid := LoadFiles(st, prefix);
    assert LoadFiles(st, files) == LoadFile(mid, f);
    assert Entries(files) == Entries(prefix) + FileEntries(f);
    LoadFileMeaning(mid, f);
    RecordsAppend(Entries(prefix), FileEntries(f));
    AppendAssoc(st.list, Records(Entries(prefix)), Records(FileEntries(f)));
  }

  lemma AppendAssoc<T>(a: seq<T>, b: seq<T>, c: seq<T>)
    ensures (a + b) + c == a + (b + c)
  {
  }

  lemma LoadFilesTableStep(st: State, files: seq<SourceFile>)
    requires NullFree(files) && files != []
    requires LoadFiles(st, files[..|files| - 1]).table == Tabulate(st.table, Entries(files[..|files| - 1]))
    ensures LoadFiles(st, files).table == Tabulate(st.table, Entries(files))
  {
    var prefix, f := files[..|files| - 1], files[|files| - 1];
    var mid := LoadFiles(st, prefix);
    assert LoadFiles(st, files) == LoadFile(mid, f);
    assert Entries(files) == Entries(prefix) + FileEntries(f);
    LoadFileMeaning(mid, f);
    TabulateAppend(st.table, Entries(prefix), FileEntries(f));
  }

  /** Processing a later batch of files continues from the state the earlier
      ones left. */
  lemma {:induction false} LoadFilesSplit(st: State, fs: seq<SourceFile>, gs: seq<SourceFile>)
    requires NullFree(fs) && NullFree(gs)
    ensures NullFree(fs + gs)
    ensures LoadFiles(st, fs + gs) == LoadFiles(LoadFiles(st, fs), gs)
    decreases |gs|
  {
    assert forall i | 0 <= i < |fs + gs| :: (fs + gs)[i] == if i < |fs| then fs[i] else gs[i - |fs|];
    if gs == [] {
      assert fs + gs == fs;
    } else {
      var gs' := gs[..|gs| - 1];
      assert (fs + gs)[..|fs + gs| - 1] == fs + gs';
      LoadFilesSplit(st, fs, gs');
    }
  }

  /** A file that fails to parse, or whose top level is not a list, adds
      exactly one error and no record, and the files after it are processed
      as usual. */
  lemma BadFileSkipped(st: State, fs: seq<SourceFile>, f: SourceFile, gs: seq<SourceFile>)
    requires NullFree(fs) && NullFree(gs)
    requires f.parsed.ParseError? || !f.parsed.data.Seq?
    ensures NullFree(fs + [f] + gs)
    ensures var mid := LoadFiles(st, fs);
      LoadFiles(st, fs + [f] + gs)
      == LoadFiles(mid.(errors := mid.errors + [if f.parsed.ParseError? then ParseFailed(f.name) else NotAList(f.name)]), gs)
  {
    assert NullFree([f]);
    LoadFilesSplit(st, fs, [f]);
    assert LoadFiles(st, fs + [f]) == LoadFile(LoadFiles(st, fs), f) by {
      assert (fs + [f])[..|fs + [f]| - 1] == fs;
    }
    LoadFilesSplit(st, fs + [f], gs);
  }

  // ---------------------------------------------------------------------
  // The duplicate table

  /** Filing records one by one groups them by key: a key has a slot exactly
      when some record carries it, and the slot holds those records in the
      order they were filed. */
  lemma {:induction false} TabulateGroups(occs: seq<Occurrence>)
    ensures TableValid(Tabulate(EmptyTable, occs))
    ensures forall k :: k in Tabulate(EmptyTable, occs).slots <==> Filter(occs, k) != []
    ensures forall k | k in Tabulate(EmptyTable, occs).slots ::
      Tabulate(EmptyTable, occs).slots[k] == Filter(occs, k)
    decreases |occs|
  {
    assert TableValid(EmptyTable);
    if occs != [] {
      var p := occs[..|occs| - 1];
      var o := occs[|occs| - 1];
      TabulateGroups(p);
      var t := Tabulate(EmptyTable, p);
      forall k ensures k in Tabulate(EmptyTable, occs).slots <==> Filter(occs, k) != [] {
        if k != o.key {
          assert Filter(occs, k) == Filter(p, k) + [];
        }
      }
    }
  }

  lemma {:induction false} ReportsForAppend(a: seq<Error>, b: seq<Error>, k: string)
    ensures ReportsFor(a + b, k) == ReportsFor(a, k) + ReportsFor(b, k)
    decreases |b|
  {
    if b == [] {
      assert a + b == a;
    } else {
      assert (a + b)[..|a + b| - 1] == a + b[..|b| - 1];
      ReportsForAppend(a, b[..|b| - 1], k);
    }
  }

  lemma {:induction false} ReportsForNone(errors: seq<Error>, k: string)
    requires forall i | 0 <= i < |errors| :: !errors[i].Duplicate?
    ensures ReportsFor(errors, k) == 0
    decreases |errors|
  {
    if errors != [] {
      ReportsForNone(errors[..|errors| - 1], k);
    }
  }

  /** Over a list of distinct keys, each key with two or more copies gets
      exactly one report, and no other key gets any. */
  lemma {:induction false} ReportsCount(t: Table, keys: seq<string>, k: string)
    requires forall i | 0 <= i < |keys| :: keys[i] in t.slots
    requires forall a, b | 0 <= a < b < |keys| :: keys[a] != keys[b]
    ensures ReportsFor(Reports(t, keys), k) == (if k in keys && |t.slots[k]| >= 2 then 1 else 0)
    decreases |keys|
  {
    if keys != [] {
      var p := keys[..|keys| - 1];
      var last := keys[|keys| - 1];
      ReportsCount(t, p, k);
      var occs := t.slots[last];
      var single := if |occs| <= 1 then [] else [Duplicate(last, |occs|, Sites(occs))];
      ReportsForAppend(Reports(t, p), single, k);
      if single != [] {
        assert ReportsFor(single, k) == (if last == k then 1 else 0) by {
          assert single[..0] == [];
        }
      }
      assert k in keys <==> k in p || k == last;
    }
  }

  /** Every report states the key's count and lists each copy's site, in the
      order the copies were filed. */
  lemma {:induction false} ReportsShape(t: Table, keys: seq<string>)
    requires forall i | 0 <= i < |keys| :: keys[i] in t.slots
    ensures forall e | e in Reports(t, keys) ::
      && e.Duplicate? && e.key in t.slots && 2 <= |t.slots[e.key]|
      && e.count == |t.slots[e.key]| && e.sites == Sites(t.slots[e.key])
    decreases |keys|
  {
    if keys != [] {
      ReportsShape(t, keys[..|keys| - 1]);
    }
  }

  lemma DuplicateReportsExact(t: Table)
    requires TableValid(t)
    ensures forall k ::
      ReportsFor(DuplicateReports(t), k) == (if k in t.slots && |t.slots[k]| >= 2 then 1 else 0)
    ensures forall e | e in DuplicateReports(t) ::
      && e.Duplicate? && e.key in t.slots && 2 <= |t.slots[e.key]|
      && e.count == |t.slots[e.key]| && e.sites == Sites(t.slots[e.key])
  {
    forall k ensures ReportsFor(DuplicateReports(t), k)
      == (if k in t.slots && |t.slots[k]| >= 2 then 1 else 0)
    {
      ReportsCount(t, t.keys, k);
    }
    ReportsShape(t, t.keys);
  }

  // ---------------------------------------------------------------------
  // The whole loading stage

  lemma {:induction false} LoopErrorsHaveNoDuplicates(files: seq<SourceFile>)
    requires NullFree(files)
    ensures forall i | 0 <= i < |LoopErrors(files)| :: !LoopErrors(files)[i].Duplicate?
    decreases |files|
  {
    if files != [] {
      LoopErrorsHaveNoDuplicates(files[..|files| - 1]);
      var f := files[|files| - 1];
      if f.parsed.Parsed? && f.parsed.data.Seq? {
        ItemErrorsHaveNoDuplicates(f.name, f.parsed.data.items);
      }
    }
  }

  lemma {:induction false} ItemErrorsHaveNoDuplicates(file: string, items: seq<Value>)
    requires ItemsNullFree(items)
    ensures forall i | 0 <= i < |ItemErrors(file, items)| :: !ItemErrors(file, items)[i].Duplicate?
    decreases |items|
  {
    if items != [] {
      ItemErrorsHaveNoDuplicates(file, items[..|items| - 1]);
    }
  }

  /** The final list is the accepted records, rewritten, in file then
      position order; the final error list is the loop's errors, then "No
      redirects" exactly when the list is empty, then the duplicate reports. */
  lemma LoadSummary(files: seq<SourceFile>)
    requires NullFree(files)
    ensures TableValid(Tabulate(EmptyTable, Entries(files)))
    ensures Load(files).list == Records(Entries(files))
    ensures Load(files).errors
      == LoopErrors(files)
         + (if Entries(files) == [] then [NoRedirects] else [])
         + DuplicateReports(Tabulate(EmptyTable, Entries(files)))
  {
    var st := LoadFiles(Empty, files);
    var es := Entries(files);
    LoadFilesMeaning(Empty, files);
    TabulateGroups(es);
    assert st.errors == LoopErrors(files) by {
      assert [] + LoopErrors(files) == LoopErrors(files);
    }
    assert st.list == Records(es) by {
      assert [] + Records(es) == Records(es);
    }
    assert st.table == Tabulate(EmptyTable, es);
    assert st.list == [] <==> es == [] by {
      assert |Records(es)| == |es|;
    }
    assert Load(files) == Finish(st);
  }

  /** Across all files, each normalized `from` is reported exactly once when
      two or more accepted records carry it and never otherwise, and its
      report gives the count and every record's site in occurrence order. */
  lemma DuplicatesReportedOnce(files: seq<SourceFile>, k: string)
    requires NullFree(files)
    ensures ReportsFor(Load(files).errors, k)
      == (if |Filter(Entries(files), k)| >= 2 then 1 else 0)
    ensures forall e | e in Load(files).errors && e.Duplicate? && e.key == k ::
      e.count == |Filter(Entries(files), k)| && e.sites == Sites(Filter(Entries(files), k))
  {
    DuplicateCount(files, k);
    DuplicateShape(files, k);
  }

  lemma DuplicateCount(files: seq<SourceFile>, k: string)
    requires NullFree(files)
    ensures ReportsFor(Load(files).errors, k)
      == (if |Filter(Entries(files), k)| >= 2 then 1 else 0)
  {
    LoadSummary(files);
    var occs := Entries(files);
    var t := Tabulate(EmptyTable, occs);
    TabulateGroups(occs);
    ReportsCount(t, t.keys, k);
    LoopErrorsHaveNoDuplicates(files);
    ReportsAfterLoop(LoopErrors(files), if occs == [] then [NoRedirects] else [], DuplicateReports(t), k);
  }

  /** Only the reports after the loop's errors and the empty check count. */
  lemma ReportsAfterLoop(loop: seq<Error>, empty: seq<Error>, reports: seq<Error>, k: string)
    requires forall i | 0 <= i < |loop| :: !loop[i].Duplicate?
    requires forall i | 0 <= i < |empty| :: !empty[i].Duplicate?
    ensures ReportsFor(loop + empty + reports, k) == ReportsFor(reports, k)
  {
    ReportsForNone(loop, k);
    ReportsForNone(empty, k);
    ReportsForAppend(loop, empty, k);
    ReportsForAppend(loop + empty, reports, k);
  }

  lemma DuplicateShape(files: seq<SourceFile>, k: string)
    requires NullFree(files)
    ensures forall e | e in Load(files).errors && e.Duplicate? && e.key == k ::
      e.count == |Filter(Entries(files), k)| && e.sites == Sites(Filter(Entries(files), k))
  {
    LoadSummary(files);
    var occs := Entries(files);
    var t := Tabulate(EmptyTable, occs);
    TabulateGroups(occs);
    DuplicateReportsExact(t);
    LoopErrorsHaveNoDuplicates(files);
    forall e | e in Load(files).errors && e.Duplicate? && e.key == k
      ensures e.count == |Filter(occs, k)| && e.sites == Sites(Filter(occs, k))
    {
      assert e in DuplicateReports(t);
    }
  }

  // ---------------------------------------------------------------------
  // Order and count of the accepted records

  /** A file's accepted records, in increasing entry number: each is the
      rewritten record at that position and passes both checks, and every
      position that passes both checks is there. */
  lemma EntriesInPositionOrder(file: string, items: seq<Value>)
    requires ItemsNullFree(items)
    ensures forall a, b | 0 <= a < b < |ItemEntries(file, items)| ::
      ItemEntries(file, items)[a].site.index < ItemEntries(file, items)[b].site.index
    ensures forall a | 0 <= a < |ItemEntries(file, items)| ::
      ProperEntry(file, items, ItemEntries(file, items)[a])
    ensures forall j | 0 <= j < |items| && Accepted(items[j]) ::
      exists a | 0 <= a < |ItemEntries(file, items)| :: ItemEntries(file, items)[a].site.index == j + 1
  {
    EntriesOrdered(file, items);
    EntriesProper(file, items);
    EntriesComplete(file, items);
  }

  lemma {:induction false} EntriesProper(file: string, items: seq<Value>)
    requires ItemsNullFree(items)
    ensures forall a | 0 <= a < |ItemEntries(file, items)| ::
      ProperEntry(file, items, ItemEntries(file, items)[a])
    decreases |items|
  {
    if items != [] {
      var n := |items|;
      var p := items[..n - 1];
      EntriesProper(file, p);
      ItemEntriesSnoc(file, items);
      var es := ItemEntries(file, p);
      var all := ItemEntries(file, items);
      forall a | 0 <= a < |all| ensures ProperEntry(file, items, all[a]) {
        if a < |es| {
          assert all[a] == es[a];
          ProperEntryGrows(file, p, items, es[a]);
        }
      }
    }
  }

  lemma {:induction false} EntriesOrdered(file: string, items: seq<Value>)
    requires ItemsNullFree(items)
    ensures forall a | 0 <= a < |ItemEntries(file, items)| ::
      1 <= ItemEntries(file, items)[a].site.index <= |items|
    ensures forall a, b | 0 <= a < b < |ItemEntries(file, items)| ::
      ItemEntries(file, items)[a].site.index < ItemEntries(file, items)[b].site.index
    decreases |items|
  {
    if items != [] {
      var n := |items|;
      var p := items[..n - 1];
      EntriesOrdered(file, p);
      ItemEntriesSnoc(file, items);
      var es := ItemEntries(file, p);
      var all := ItemEntries(file, items);
      assert forall a | 0 <= a < |es| :: all[a] == es[a];
    }
  }

  lemma {:induction false} EntriesComplete(file: string, items: seq<Value>)
    requires ItemsNullFree(items)
    ensures forall j | 0 <= j < |items| && Accepted(items[j]) ::
      exists a | 0 <= a < |ItemEntries(file, items)| :: ItemEntries(file, items)[a].site.index == j + 1
    decreases |items|
  {
    if items != [] {
      var n := |items|;
      var p := items[..n - 1];
      EntriesComplete(file, p);
      ItemEntriesSnoc(file, items);
      var es := ItemEntries(file, p);
      var all := ItemEntries(file, items);
      forall j | 0 <= j < n && Accepted(items[j])
        ensures exists a | 0 <= a < |all| :: all[a].site.index == j + 1
      {
        if j < n - 1 {
          assert items[j] == p[j];
          var a :| 0 <= a < |es| && es[a].site.index == j + 1;
          assert all[a] == es[a];
        } else {
          assert all[|es|].site.index == n;
        }
      }
    }
  }

  /** An occurrence of `file` that stands for the accepted record at its
      position, rewritten. */
  ghost predicate ProperEntry(file: string, items: seq<Value>, o: Occurrence)
    requires ItemsNullFree(items)
  {
    && o.site.file == file && 1 <= o.site.index <= |items|
    && Accepted(items[o.site.index - 1])
    && o.record == Rewrite(items[o.site.index - 1])
    && o.key == KeyOf(items[o.site.index - 1])
  }

  lemma ProperEntryGrows(file: string, p: seq<Value>, items: seq<Value>, o: Occurrence)
    requires ItemsNullFree(items) && items != [] && p == items[..|items| - 1]
    requires ItemsNullFree(p) && ProperEntry(file, p, o)
    ensures ProperEntry(file, items, o)
  {
    assert items[o.site.index - 1] == p[o.site.index - 1];
  }

  lemma {:induction false} ItemEntriesCount(file: string, items: seq<Value>)
    requires ItemsNullFree(items)
    ensures |ItemEntries(file, items)| == |AcceptedPositions(items)|
    decreases |items|
  {
    if items != [] {
      var n := |items|;
      var p := items[..n - 1];
      ItemEntriesCount(file, p);
      ItemEntriesSnoc(file, items);
      AcceptedPositionsSnoc(items);
    }
  }

  lemma AcceptedPositionsSnoc(items: seq<Value>)
    requires ItemsNullFree(items) && items != []
    ensures ItemsNullFree(items[..|items| - 1])
    ensures |AcceptedPositions(items)|
      == |AcceptedPositions(items[..|items| - 1])| + (if Accepted(items[|items| - 1]) then 1 else 0)
  {
    AcceptedPositionsSplit(items);
    if Accepted(items[|items| - 1]) {
      CardAddFresh(AcceptedPositions(items[..|items| - 1]), |items| - 1);
    }
  }

  lemma AcceptedPositionsSplit(items: seq<Value>)
    requires ItemsNullFree(items) && items != []
    ensures ItemsNullFree(items[..|items| - 1])
    ensures |items| - 1 !in AcceptedPositions(items[..|items| - 1])
    ensures AcceptedPositions(items) == AcceptedPositions(items[..|items| - 1])
      + (if Accepted(items[|items| - 1]) then {|items| - 1} else {})
  {
    var n := |items|;
    var p := items[..n - 1];
    forall j: nat | j < n - 1 ensures items[j] == p[j] {}
  }

  lemma CardAddFresh(s: set<nat>, x: nat)
    requires x !in s
    ensures |s + {x}| == |s| + 1
  {
  }

  lemma {:induction false} EntriesCount(files: seq<SourceFile>)
    requires NullFree(files)
    ensures |Entries(files)| == AcceptedCount(files)
    decreases |files|
  {
    if files != [] {
      EntriesCount(files[..|files| - 1]);
      var f := files[|files| - 1];
      if f.parsed.Parsed? && f.parsed.data.Seq? {
        ItemEntriesCount(f.name, f.parsed.data.items);
      }
    }
  }

  /** The list's length is the number of records that passed both the dict
      check and the `from` check. */
  lemma ListCountsAcceptedRecords(files: seq<SourceFile>)
    requires NullFree(files)
    ensures |Load(files).list| == AcceptedCount(files)
  {
    LoadSummary(files);
    EntriesCount(files);
  }

  // ---------------------------------------------------------------------
  // The inherited-key crash

  /** A record whose `from` normalizes to "constructor" makes the filing
      step throw in the script, while the corrected filing keeps it. */
  lemma ConstructorFromCrashes()
    ensures var entry := Map(map["from" := Str("/Constructor"), "to" := Str("https://example.org")]);
      && Accepted(entry)
      && KeyOf(entry) == "constructor"
      && FileUnderAsWritten(EmptyTable, Occurrence(KeyOf(entry), Site("a.yaml", 1), Rewrite(entry))).None?
  {
    var entry := Map(map["from" := Str("/Constructor"), "to" := Str("https://example.org")]);
    assert Get(entry, "from") == Some(Str("/Constructor"));
    ConstructorIsText();
    ConstructorKey();
  }

  lemma ConstructorIsText()
    ensures Trim("/Constructor") != []
  {
    TrimEmptyIffAllSpace("/Constructor");
    assert !IsSpace("/Constructor"[0]);
  }

  lemma ConstructorKey()
    ensures NormalizeFrom("/Constructor") == "constructor"
  {
    assert ToLower("/Constructor") == "/constructor";
    assert LeadingSlashes("/constructor") == 1 by {
      assert "/constructor"[1..] == "constructor";
    }
  }

  /** The corrected filing never loses a record: the key's slot ends with it
      and every other slot is untouched. */
  lemma FileUnderKeepsEveryRecord(t: Table, o: Occurrence)
    requires TableValid(t)
    ensures TableValid(FileUnder(t, o))
    ensures FileUnder(t, o).slots[o.key] == (if o.key in t.slots then t.slots[o.key] else []) + [o]
    ensures |FileUnder(t, o).keys| == |t.keys| + (if o.key in t.slots then 0 else 1)
    ensures forall k | k != o.key :: (k in t.slots <==> k in FileUnder(t, o).slots)
  {
  }

  // ---------------------------------------------------------------------
  // The loading loop as written agrees with the corrected one until it throws

  /** No slot is filed under an inherited key; true of the empty table. */
  ghost predicate NoInheritedSlots(t: Table) {
    forall k | k in t.slots :: !Inherited(k)
  }

  lemma CrashesAppend(a: seq<Occurrence>, b: seq<Occurrence>)
    ensures Crashes(a + b) <==> Crashes(a) || Crashes(b)
  {
    if Crashes(a) {
      var i :| 0 <= i < |a| && Inherited(a[i].key);
      assert (a + b)[i] == a[i];
    }
    if Crashes(b) {
      var i :| 0 <= i < |b| && Inherited(b[i].key);
      assert (a + b)[|a| + i] == b[i];
    }
    if Crashes(a + b) {
      var i :| 0 <= i < |a + b| && Inherited((a + b)[i].key);
      if i < |a| {
        assert (a + b)[i] == a[i];
      } else {
        assert (a + b)[i] == b[i - |a|];
      }
    }
  }

  lemma AsWrittenRecord(st: State, at: Site, entry: Value)
    requires entry != Null && NoInheritedSlots(st.table)
    ensures var o := RecordEntry(at, entry);
      var occs := if o.Some? then [o.value] else [];
      && LoadRecordAsWritten(st, at, entry)
         == (if Crashes(occs) then None else Some(LoadRecord(st, at, entry)))
      && (!Crashes(occs) ==> NoInheritedSlots(LoadRecord(st, at, entry).table))
  {
    var o := RecordEntry(at, entry);
    if o.Some? {
      assert [o.value][0] == o.value;
    }
  }

  lemma {:induction false} AsWrittenItems(st: State, file: string, items: seq<Value>)
    requires ItemsNullFree(items) && NoInheritedSlots(st.table)
    ensures LoadItemsAsWritten(st, file, items)
      == (if Crashes(ItemEntries(file, items)) then None else Some(LoadItems(st, file, items)))
    ensures !Crashes(ItemEntries(file, items)) ==> NoInheritedSlots(LoadItems(st, file, items).table)
    decreases |items|
  {
    if items != [] {
      var n := |items|;
      var o := RecordEntry(Site(file, n), items[n - 1]);
      var last := if o.Some? then [o.value] else [];
      AsWrittenItems(st, file, items[..n - 1]);
      CrashesAppend(ItemEntries(file, items[..n - 1]), last);
      if !Crashes(ItemEntries(file, items[..n - 1])) {
        AsWrittenRecord(LoadItems(st, file, items[..n - 1]), Site(file, n), items[n - 1]);
      }
    }
  }

  lemma AsWrittenFile(st: State, f: SourceFile)
    requires FileNullFree(f) && NoInheritedSlots(st.table)
    ensures LoadFileAsWritten(st, f)
      == (if Crashes(FileEntries(f)) then None else Some(LoadFile(st, f)))
    ensures !Crashes(FileEntries(f)) ==> NoInheritedSlots(LoadFile(st, f).table)
  {
    match f.parsed {
      case ParseError =>
      case Parsed(data) =>
        if data.Seq? {
          AsWrittenItems(st, f.name, data.items);
        }
    }
  }

  lemma {:induction false} AsWrittenFiles(st: State, files: seq<SourceFile>)
    requires NullFree(files) && NoInheritedSlots(st.table)
    ensures LoadFilesAsWritten(st, files)
      == (if Crashes(Entries(files)) then None else Some(LoadFiles(st, files)))
    ensures !Crashes(Entries(files)) ==> NoInheritedSlots(LoadFiles(st, files).table)
    decreases |files|
  {
    if files != [] {
      var n := |files|;
      AsWrittenFiles(st, files[..n - 1]);
      CrashesAppend(Entries(files[..n - 1]), FileEntries(files[n - 1]));
      if !Crashes(Entries(files[..n - 1])) {
        AsWrittenFile(LoadFiles(st, files[..n - 1]), files[n - 1]);
      }
    }
  }

  /** The scripts as written throw exactly when some accepted record, in any
      file, is filed under `constructor` or `__proto__`; when they do not, they
      end in exactly the state the corrected filing gives. */
  lemma AsWrittenLoadAgrees(files: seq<SourceFile>)
    requires NullFree(files)
    ensures LoadAsWritten(files).None? <==> Crashes(Entries(files))
    ensures LoadAsWritten(files).Some? ==> LoadAsWritten(files).value == Load(files)
  {
    AsWrittenFiles(Empty, files);
  }

  // ---------------------------------------------------------------------
  // Order of the duplicate table's keys and of the reports

  /** Some record is filed under `k`. */
  ghost predicate Carried(occs: seq<Occurrence>, k: string) {
    exists j | 0 <= j < |occs| :: occs[j].key == k
  }

  /** Every record filed under `later` comes after one filed under `earlier`:
      `earlier` was first filed before `later` was. */
  ghost predicate SeenBefore(occs: seq<Occurrence>, earlier: string, later: string) {
    forall j | 0 <= j < |occs| && occs[j].key == later ::
      exists i | 0 <= i < j :: occs[i].key == earlier
  }

  /** The table lists each key carried by some record exactly once, in the
      order the keys were first filed. */
  lemma {:induction false} TabulateKeyOrder(occs: seq<Occurrence>)
    ensures forall k :: k in Tabulate(EmptyTable, occs).keys <==> Carried(occs, k)
    ensures forall a, b | 0 <= a < b < |Tabulate(EmptyTable, occs).keys| ::
      Tabulate(EmptyTable, occs).keys[a] != Tabulate(EmptyTable, occs).keys[b]
    ensures forall a, b | 0 <= a < b < |Tabulate(EmptyTable, occs).keys| ::
      SeenBefore(occs, Tabulate(EmptyTable, occs).keys[a], Tabulate(EmptyTable, occs).keys[b])
    decreases |occs|
  {
    assert TableValid(EmptyTable);
    if occs != [] {
      var n := |occs|;
      var p, o := occs[..n - 1], occs[n - 1];
      assert occs == p + [o];
      TabulateKeyOrder(p);
      var prev := Tabulate(EmptyTable, p);
      var keys := Tabulate(EmptyTable, occs).keys;
      assert keys == prev.keys + (if o.key in prev.keys then [] else [o.key]);
      forall k ensures k in keys <==> Carried(occs, k) {
        CarriedSnoc(p, o, k);
      }
      forall a, b | 0 <= a < b < |keys| ensures SeenBefore(occs, keys[a], keys[b]) {
        if b < |prev.keys| {
          assert o.key == keys[b] ==> Carried(p, keys[b]);
          SeenBeforeSnoc(p, o, keys[a], keys[b]);
        } else {
          assert Carried(p, keys[a]);
          assert !Carried(p, o.key);
          SeenBeforeNew(p, o, keys[a]);
        }
      }
    }
  }

  lemma CarriedSnoc(p: seq<Occurrence>, o: Occurrence, k: string)
    ensures Carried(p + [o], k) <==> Carried(p, k) || o.key == k
  {
    var occs := p + [o];
    if Carried(p, k) {
      var j :| 0 <= j < |p| && p[j].key == k;
      assert occs[j] == p[j];
    }
    if o.key == k {
      assert occs[|p|] == o;
    }
    if Carried(occs, k) {
      var j :| 0 <= j < |occs| && occs[j].key == k;
      if j < |p| {
        assert occs[j] == p[j];
      }
    }
  }

  lemma SeenBeforeSnoc(p: seq<Occurrence>, o: Occurrence, x: string, y: string)
    requires SeenBefore(p, x, y)
    requires o.key == y ==> Carried(p, y)
    ensures SeenBefore(p + [o], x, y)
  {
    var occs := p + [o];
    forall j | 0 <= j < |occs| && occs[j].key == y
      ensures exists i | 0 <= i < j :: occs[i].key == x
    {
      if j < |p| {
        assert occs[j] == p[j];
        var i :| 0 <= i < j && p[i].key == x;
        assert occs[i] == p[i];
      } else {
        var j' :| 0 <= j' < |p| && p[j'].key == y;
        var i :| 0 <= i < j' && p[i].key == x;
        assert occs[i] == p[i];
      }
    }
  }

  lemma SeenBeforeNew(p: seq<Occurrence>, o: Occurrence, x: string)
    requires Carried(p, x) && !Carried(p, o.key)
    ensures SeenBefore(p + [o], x, o.key)
  {
    var occs := p + [o];
    var i :| 0 <= i < |p| && p[i].key == x;
    assert forall j | 0 <= j < |p| :: occs[j] == p[j];
    forall j | 0 <= j < |occs| && occs[j].key == o.key
      ensures exists i | 0 <= i < j :: occs[i].key == x
    {
      assert occs[i].key == x;
    }
  }

  /** Reports come in the order of the keys walked. */
  lemma {:induction false} ReportsInKeyOrder(t: Table, keys: seq<string>)
    requires forall i | 0 <= i < |keys| :: keys[i] in t.slots
    ensures forall a, b | 0 <= a < b < |Reports(t, keys)| ::
      exists p, q | 0 <= p < q < |keys| :: keys[p] == Reports(t, keys)[a].key && keys[q] == Reports(t, keys)[b].key
    decreases |keys|
  {
    if keys != [] {
      var n := |keys|;
      var ks := keys[..n - 1];
      ReportsInKeyOrder(t, ks);
      var prev := Reports(t, ks);
      var r := Reports(t, keys);
      var occs := t.slots[keys[n - 1]];
      assert r == prev + (if |occs| <= 1 then [] else [Duplicate(keys[n - 1], |occs|, Sites(occs))]);
      forall a, b | 0 <= a < b < |r|
        ensures exists p, q | 0 <= p < q < |keys| :: keys[p] == r[a].key && keys[q] == r[b].key
      {
        if b < |prev| {
          assert r[a] == prev[a] && r[b] == prev[b];
          var p, q :| 0 <= p < q < |ks| && ks[p] == prev[a].key && ks[q] == prev[b].key;
          assert keys[p] == ks[p] && keys[q] == ks[q];
        } else {
          assert r[a] == prev[a] && r[a].key in ks;
          var p :| 0 <= p < |ks| && ks[p] == r[a].key;
          assert keys[p] == ks[p] && keys[n - 1] == r[b].key;
        }
      }
    } else {
      assert Reports(t, keys) == [];
    }
  }

  /** Across all files, the duplicate reports come in the order their keys
      were first filed. */
  lemma DuplicateReportsInFilingOrder(files: seq<SourceFile>)
    requires NullFree(files)
    ensures TableValid(Tabulate(EmptyTable, Entries(files)))
    ensures var reports := DuplicateReports(Tabulate(EmptyTable, Entries(files)));
      forall a, b | 0 <= a < b < |reports| :: SeenBefore(Entries(files), reports[a].key, reports[b].key)
  {
    var occs := Entries(files);
    TabulateGroups(occs);
    TabulateKeyOrder(occs);
    var t := Tabulate(EmptyTable, occs);
    ReportsInKeyOrder(t, t.keys);
    var reports := DuplicateReports(t);
    forall a, b | 0 <= a < b < |reports| ensures SeenBefore(occs, reports[a].key, reports[b].key) {
      var p, q :| 0 <= p < q < |t.keys| && t.keys[p] == reports[a].key && t.keys[q] == reports[b].key;
    }
  }
}
