/** The mutating request handlers: each loads the whole list, changes it in
    memory and saves the whole list back. The HTTP layer is reduced to the
    form values a handler reads and the outcome it reports. */
module Handlers {
  import opened Entries
  import opened Store

  /** The `success` tag of the redirect back to the list view. */
  datatype Success = Added | Deleted | Edited

  /** Why a handler answered with an error page instead of a redirect. */
  datatype Failure = FieldsMissing | LoadFailed | SaveFailed

  datatype Response = Redirect(tag: Success) | Error(failure: Failure)

  /** The reply to a request whose list was loaded and then saved with
      `outcome`: the redirect when the save went through. */
  function AfterSaving(outcome: SaveOutcome, tag: Success): (r: Response)
    ensures r.Redirect? <==> outcome.Written?
    ensures r.Redirect? ==> r.tag == tag
    ensures r.Error? ==> r.failure == SaveFailed
  {
    if outcome.Written? then Redirect(tag) else Error(SaveFailed)
  }

  /** The delete handler's loop: walk the loaded list once and append every
      entry that differs from (date, content) in at least one field. */
  method KeepUnmatched(entries: seq<Entry>, date: string, content: string)
    returns (kept: seq<Entry>)
    ensures kept == RemoveMatching(entries, date, content)
    ensures forall k :: 0 <= k < |kept| ==> !Matches(kept[k], date, content)
    ensures |kept| == |entries| - Count(entries, date, content)
  {
    kept := [];
    var i := 0;
    while i < |entries|
      invariant 0 <= i <= |entries|
      invariant kept == RemoveMatching(entries[..i], date, content)
    {
      var e := entries[i];
      assert entries[..i + 1][..i] == entries[..i];
      if e.date != date || e.content != content {
        kept := kept + [e];
      }
      i := i + 1;
    }
    assert entries[..i] == entries;
    RemoveMatchingRemovesAll(entries, date, content);
    RemoveMatchingLength(entries, date, content);
  }

  /** The edit handler's loop: scan the loaded array in order, overwrite the
      first entry equal to (oldDate, oldContent) and stop there. */
  method ReplaceFirstInPlace(a: array<Entry>, oldDate: string, oldContent: string,
                             newDate: string, newContent: string)
    modifies a
    ensures a[..] == ReplaceFirst(old(a[..]), oldDate, oldContent, newDate, newContent)
  {
    var i := 0;
    while i < a.Length
      invariant 0 <= i <= a.Length
      invariant a[..] == old(a[..])
      invariant forall k :: 0 <= k < i ==> !Matches(a[k], oldDate, oldContent)
    {
      if a[i].date == oldDate && a[i].content == oldContent {
        assert FirstMatch(a[..], oldDate, oldContent) == Some(i);
        ReplaceFirstAt(a[..], oldDate, oldContent, newDate, newContent, i);
        a[i] := Entry(newDate, newContent);
        return;
      }
      i := i + 1;
    }
    ReplaceFirstAbsent(a[..], oldDate, oldContent, newDate, newContent);
  }

  /** The diary as the handlers see it: the backing file, loaded at the
      start of every request and saved at its end. */
  class Diary {
    var file: FileState

    constructor (initial: FileState)
      ensures file == initial
    {
      file := initial;
    }

    /** loadEntries: read the file; it is not changed. */
    method LoadEntries() returns (r: Loaded)
      ensures r == Load(file)
      ensures r.Loaded? <==> file.Holds?
    {
      r := Load(file);
    }

    /** saveEntries: overwrite the file with `entries`; every failure is an
        IOError. */
    method SaveEntries(entries: seq<Entry>, outcome: SaveOutcome) returns (err: Option<StoreError>)
      modifies this
      ensures file == AfterSave(old(file), entries, outcome)
      ensures err.None? <==> outcome.Written?
      ensures err.Some? ==> err.value == IOError
    {
      file := AfterSave(file, entries, outcome);
      err := if outcome.Written? then None else Some(IOError);
    }

    /** addHandler: both fields are required; the new entry goes first. */
    method Add(date: string, content: string, outcome: SaveOutcome) returns (resp: Response)
      modifies this
      ensures date == "" || content == "" ==>
        resp == Error(FieldsMissing) && file == old(file)
      ensures date != "" && content != "" && !old(file).Holds? ==>
        resp == Error(LoadFailed) && file == old(file)
      ensures date != "" && content != "" && old(file).Holds? ==>
        file == AfterSave(old(file), Prepend(Entry(date, content), old(file).entries), outcome) &&
        resp == AfterSaving(outcome, Added)
    {
      if date == "" || content == "" {
        return Error(FieldsMissing);
      }
      var newEntry := Entry(date, content);
      var loaded := LoadEntries();
      if loaded.LoadError? {
        return Error(LoadFailed);
      }
      var entries := Prepend(newEntry, loaded.entries);
      var err := SaveEntries(entries, outcome);
      if err.Some? {
        return Error(SaveFailed);
      }
      resp := Redirect(Added);
    }

    /** deleteHandler: every entry equal to (date, content) goes; a pair
        that is not stored is a silent no-op that still reports success. */
    method Delete(date: string, content: string, outcome: SaveOutcome) returns (resp: Response)
      modifies this
      ensures !old(file).Holds? ==> resp == Error(LoadFailed) && file == old(file)
      ensures old(file).Holds? ==>
        file == AfterSave(old(file), RemoveMatching(old(file).entries, date, content), outcome) &&
        resp == AfterSaving(outcome, Deleted)
    {
      var loaded := LoadEntries();
      if loaded.LoadError? {
        return Error(LoadFailed);
      }
      var newEntries := KeepUnmatched(loaded.entries, date, content);
      var err := SaveEntries(newEntries, outcome);
      if err.Some? {
        return Error(SaveFailed);
      }
      resp := Redirect(Deleted);
    }

    /** editPostHandler: the first entry equal to (oldDate, oldContent) is
        replaced in place; without one the list is saved back unchanged and
        the outcome is still "edited". */
    method EditApply(oldDate: string, oldContent: string, newDate: string, newContent: string,
                     outcome: SaveOutcome) returns (resp: Response)
      modifies this
      ensures !old(file).Holds? ==> resp == Error(LoadFailed) && file == old(file)
      ensures old(file).Holds? ==>
        file == AfterSave(old(file),
                          ReplaceFirst(old(file).entries, oldDate, oldContent, newDate, newContent),
                          outcome) &&
        resp == AfterSaving(outcome, Edited)
    {
      var loaded := LoadEntries();
      if loaded.LoadError? {
        return Error(LoadFailed);
      }
      var s := loaded.entries;
      var entries := new Entry[|s|](k requires 0 <= k < |s| => s[k]);
      assert entries[..] == s;
      ReplaceFirstInPlace(entries, oldDate, oldContent, newDate, newContent);
      var err := SaveEntries(entries[..], outcome);
      if err.Some? {
        return Error(SaveFailed);
      }
      resp := Redirect(Edited);
    }
  }

  /** What a caller can conclude from the handler contracts alone. */
  method Scenarios(a: Entry, b: Entry, c: Entry, newDate: string, newContent: string)
    requires a != b && c.date != "" && c.content != ""
    requires !Matches(b, c.date, c.content)
  {
    var diary := new Diary(Holds([a, b]));
    var resp := diary.Add(c.date, c.content, Written);
    assert resp == Redirect(Added) && diary.file == Holds([c, a, b]);

    resp := diary.Add("", c.content, Written);
    assert resp == Error(FieldsMissing) && diary.file == Holds([c, a, b]);

    diary := new Diary(Holds([a, b]));
    resp := diary.EditApply(a.date, a.content, newDate, newContent, Written);
    Examples(a, b, c, newDate, newContent);
    assert resp == Redirect(Edited) && diary.file == Holds([Entry(newDate, newContent), b]);

    diary := new Diary(Holds([c, b, c]));
    resp := diary.Delete(c.date, c.content, Written);
    DuplicatesExample(c, b, newDate, newContent);
    assert resp == Redirect(Deleted) && diary.file == Holds([b]);

    resp := diary.Delete(c.date, c.content, Written);
    RemoveMatchingAbsent([b], c.date, c.content);
    assert resp == Redirect(Deleted) && diary.file == Holds([b]);

    diary := new Diary(Unopenable);
    resp := diary.Delete(c.date, c.content, Written);
    assert resp == Error(LoadFailed) && diary.file == Unopenable;
  }
}
