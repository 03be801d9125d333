// The module-level state of the loading scripts (`errors`, `list`,
// `duplicates`) and the statements that update it, step by step. Each
// method is proved to compute the matching function of module Pipeline.

module Loading {
  import opened Wrappers
  import opened Yaml
  import opened Pipeline

  class Loader {
    /** Collected (caught) errors, in the order they were raised. */
    var errors: seq<Error>
    /** The combined redirect list. */
    var list: seq<Fields>
    /** The duplicate table, keyed by normalized `from`. */
    var duplicates: Table

    function Snapshot(): State
      reads this
    {
      State(errors, list, duplicates)
    }

    ghost predicate Valid()
      reads this
    {
      TableValid(duplicates)
    }

    /** The state at module load: everything empty. */
    constructor ()
      ensures Snapshot() == Empty
      ensures Valid()
    {
      errors := [];
      list := [];
      duplicates := EmptyTable;
    }

    /** `errors.push(error)`: one error at the end, nothing else touched. */
    method AddError(e: Error)
      modifies this
      ensures errors == old(errors) + [e]
      ensures list == old(list) && duplicates == old(duplicates)
    {
      errors := errors + [e];
    }

    /** The body of the inner loop for one entry: a scalar or a record
        with a bad `from` raises one error and is skipped (`continue`); a bad
        `to` raises an error and the record goes on; the record's `from` is
        normalized, the record is pushed to the list, and a copy tagged with
        its site is filed under the normalized `from`. */
    method LoadEntry(at: Site, entry: Value)
      requires entry != Null
      modifies this
      ensures Snapshot() == LoadRecord(old(Snapshot()), at, entry)
      ensures old(Valid()) ==> Valid()
    {
      if !IsObject(entry) {
        AddError(NotADict(at));
        return;
      }
      var from := Get(entry, "from");
      if !ValidText(from) {
        AddError(FromInvalid(at));
        return;
      }
      ghost var checked := errors;
      if !ValidText(Get(entry, "to")) {
        AddError(ToInvalid(at));
      }
      assert errors == checked + RecordErrors(at, entry);
      var key := NormalizeFrom(from.value.s);
      var record := entry.fields["from" := Str(key)];
      list := list + [record];
      var copy := Occurrence(key, at, record);
      assert RecordEntry(at, entry) == Some(copy);
      FileCopy(copy);
    }

    /** `duplicates[key] ??= []; duplicates[key].push(copy)`. */
    method FileCopy(copy: Occurrence)
      modifies this
      ensures duplicates == FileUnder(old(duplicates), copy)
      ensures errors == old(errors) && list == old(list)
    {
      var key := copy.key;
      if key !in duplicates.slots {
        duplicates := Table(duplicates.keys + [key], duplicates.slots[key := []]);
      }
      duplicates := duplicates.(slots := duplicates.slots[key := duplicates.slots[key] + [copy]]);
    }

    /** The loop over the files, and within each list the loop over its
        entries; a file that does not parse or is not a list raises one
        error and the loop goes on with the next file. */
    method LoadAll(files: seq<SourceFile>)
      requires NullFree(files)
      modifies this
      ensures Snapshot() == Pipeline.LoadFiles(old(Snapshot()), files)
      ensures old(Valid()) ==> Valid()
    {
      var i := 0;
      while i < |files|
        invariant 0 <= i <= |files|
        invariant Snapshot() == Pipeline.LoadFiles(old(Snapshot()), files[..i])
        invariant old(Valid()) ==> Valid()
      {
        var f := files[i];
        assert files[..i + 1][..i] == files[..i];
        match f.parsed {
          case ParseError =>
            AddError(ParseFailed(f.name));
          case Parsed(data) =>
            if !data.Seq? {
              AddError(NotAList(f.name));
            } else {
              LoadList(f.name, data.items);
            }
        }
        i := i + 1;
      }
      assert files[..i] == files;
    }

    /** `for (let [index, entry] of Object.entries(data))` on an array:
        entry number `j + 1` is `items[j]`. */
    method LoadList(file: string, items: seq<Value>)
      requires ItemsNullFree(items)
      modifies this
      ensures Snapshot() == LoadItems(old(Snapshot()), file, items)
      ensures old(Valid()) ==> Valid()
    {
      var j := 0;
      while j < |items|
        invariant 0 <= j <= |items|
        invariant ItemsNullFree(items[..j])
        invariant Snapshot() == LoadItems(old(Snapshot()), file, items[..j])
        invariant old(Valid()) ==> Valid()
      {
        assert items[..j + 1][..j] == items[..j];
        LoadEntry(Site(file, j + 1), items[j]);
        j := j + 1;
      }
      assert items[..j] == items;
    }

    /** `if (!list.length)` raises "No redirects". */
    method CheckEmpty()
      modifies this
      ensures errors == old(errors) + (if old(list) == [] then [NoRedirects] else [])
      ensures list == old(list) && duplicates == old(duplicates)
    {
      if list == [] {
        AddError(NoRedirects);
      }
    }

    /** The loop over `Object.entries(duplicates)`: a key whose array holds
        one copy is skipped, any other raises one report. */
    method ReportDuplicates()
      requires Valid()
      modifies this
      ensures errors == old(errors) + DuplicateReports(old(duplicates))
      ensures list == old(list) && duplicates == old(duplicates)
    {
      var keys := duplicates.keys;
      var i := 0;
      while i < |keys|
        invariant 0 <= i <= |keys|
        invariant list == old(list) && duplicates == old(duplicates)
        invariant errors == old(errors) + Reports(duplicates, keys[..i])
      {
        assert keys[..i + 1][..i] == keys[..i];
        var from := keys[i];
        var entries := duplicates.slots[from];
        var count := |entries|;
        if count > 1 {
          AddError(Duplicate(from, count, Sites(entries)));
        }
        i := i + 1;
      }
      assert keys[..i] == keys;
    }
  }

  /** The whole loading stage of either script: fresh module state, the
      loop over the files, the empty check and the duplicate reports. */
  method Run(files: seq<SourceFile>) returns (loader: Loader)
    requires NullFree(files)
    ensures fresh(loader)
    ensures loader.Snapshot() == Load(files)
    ensures loader.Valid()
  {
    loader := new Loader();
    loader.LoadAll(files);
    loader.CheckEmpty();
    loader.ReportDuplicates();
  }
}
