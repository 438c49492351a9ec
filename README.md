# Diary list operations, verified

A model of the core of a small diary web application written in Go. The
application keeps an ordered list of entries in `data/diary.json`. Each entry
is a pair of a date label and a text. Every mutating request loads the whole
list, changes it in memory and saves the whole list back:

- **add** checks that both form fields are non-empty, then puts the new entry
  in front of the list (no duplicate check);
- **delete** keeps every entry that differs from the given pair in at least one
  field, so it removes *all* copies of the pair;
- **edit** scans the list in order and overwrites only the *first* entry equal
  to the original pair, then stops; with no such entry the list is saved back
  unchanged.

An entry has no key of its own. Two entries match only when both fields are
equal. The asymmetry between "delete removes every match" and "edit
replaces the first match" is what the lemmas pin down.

Files:

- `entries.dfy`, module `Entries`: the `Entry` datatype, the match predicate,
  the three list operations as functions (`Prepend`, `RemoveMatching`,
  `ReplaceFirst`), the helpers `Count` and `FirstMatch`, and the lemmas about them.
- `store.dfy`, module `Store`: the backing file as a `FileState` (cannot be
  opened / does not decode / holds a list), loading, and the effect of a save
  whose outcome (written, create failed, write failed) the environment chooses.
- `handlers.dfy`, module `Handlers`: the delete loop (`KeepUnmatched`, over a
  sequence, appending one entry at a time), the edit loop (`ReplaceFirstInPlace`,
  over an array, writing in place and leaving at the first match), and the
  class `Diary` whose `file` field is the backing file. Its methods
  `LoadEntries` and `SaveEntries` stand for the program's `loadEntries` and
  `saveEntries`, and `Add`, `Delete` and `EditApply` are the three mutating
  handlers, each load → mutate → save.

`RemoveMatching` and `Count` recurse from the back of the list, as the delete
loop appends survivors one by one. `ReplaceFirst` and `FirstMatch` recurse from
the front, as the edit loop scans and stops.

## Model

| member | source | states |
|---|---|---|
| `Entries.Matches` | main.go:111 | an entry matches a pair exactly when both its date and its content are equal to it, that is, when it is the entry built from that pair; the delete test at main.go:111 is the negation of this and the edit test at main.go:159 is this |
| `Entries.Count` | main.go:109-114 | the number of entries equal to the pair is at most the length, and it is zero exactly when no entry matches |
| `Entries.FirstMatch` | main.go:158-163 | the index found is in range, its entry matches on both fields, no earlier entry matches, and nothing is found exactly when no entry matches |
| `Entries.Prepend` | main.go:84 | defines add's insert at the front: the list is one longer, its first element is the new entry and the rest is the old list in its original order |
| `Entries.PrependAddsOneMatch` | main.go:76-84 | add does no duplicate check: the count of the added pair grows by exactly one |
| `Entries.RemoveMatching` | main.go:109-114 | defines delete's filter, which keeps the non-matching entries in order: the result is no longer than the list and none of its entries matches the pair |
| `Entries.RemoveMatchingMembers` | main.go:109-114 | an entry is in the result of delete if and only if it was in the list and does not match the pair on both fields |
| `Entries.RemoveMatchingRemovesAll` | main.go:109-114 | after delete no entry matches the pair: all duplicates are removed, not just one |
| `Entries.RemoveMatchingLength` | main.go:109-114 | the result of delete is as long as the old list minus the number of matching entries |
| `Entries.RemoveMatchingKeepsOrder` | main.go:109-114 | there is a strictly increasing map from result positions to old positions, each result entry is the old entry there, and it covers exactly the non-matching positions, so the survivors keep their relative order |
| `Entries.RemoveMatchingAbsent` | main.go:109-121 | deleting a pair that is not present leaves the list exactly unchanged |
| `Entries.RemoveMatchingIdempotent` | main.go:109-114 | deleting the same pair twice gives the same list as deleting it once |
| `Entries.ReplaceFirst` | main.go:158-163 | defines edit's scan, which overwrites the first match and stops: the length is kept and every position holds either its old entry or the new one |
| `Entries.ReplaceFirstAt` | main.go:158-163 | when the first match is at index i, edit gives the old list with only position i set to the new entry, so later duplicates of the old pair are untouched |
| `Entries.ReplaceFirstAbsent` | main.go:158-170 | edit with no matching entry leaves the list exactly unchanged |
| `Entries.ReplaceFirstLength` | main.go:158-163 | edit never changes the length of the list |
| `Entries.ReplaceFirstKeepsNonMatching` | main.go:159-160 | an entry that does not match on both fields, such as one that agrees on only the date, keeps its value and its position after edit |
| `Entries.CountAppend` | main.go:109-114 | the number of matches in a concatenation is the sum of the numbers in the two parts |
| `Entries.CountUpdate` | main.go:160 | overwriting one position changes the number of matches by what was there and what is put there |
| `Entries.EditRemovesOneMatch` | main.go:109-163 | when the pair is present and the new pair differs, edit leaves one match fewer while delete leaves none |
| `Entries.RemoveMatchingAppend` | main.go:110-114 | delete distributes over concatenation, because each entry is kept or dropped on its own |
| `Entries.AddThenEditOrDelete` | main.go:84-163 | right after adding an entry, editing its pair replaces the entry just added and not an older copy, and deleting its pair removes the older copies as well |
| `Entries.FilledKeptByAddAndDelete` | main.go:71-114 | if every stored entry has both fields non-empty, so does the list after a validated add and after any delete |
| `Entries.FilledAfterEdit` | main.go:148-163 | edit checks nothing: the list stays fully filled if and only if the new fields are non-empty or no entry matches |
| `Entries.Examples` | main.go:84-163 | deleting the only entry gives the empty list, adding C to [A, B] gives [C, A, B], and editing A in [A, B] gives [A', B] |
| `Entries.DuplicatesExample` | main.go:109-163 | on [A, B, A], delete of A leaves [B] while edit of A changes only the first A |
| `Store.Load` | main.go:20-32 | loading succeeds exactly when the file holds a list and then returns that list; an unopenable file is an IO error and an undecodable one a decode error |
| `Store.AfterSave` | main.go:34-45 | the file model of a save: a written save leaves the file holding exactly the saved list (assumed, see Store.SaveThenLoad under Left out), a failed create leaves the old file, and a failed write leaves what the environment chose |
| `Handlers.AfterSaving` | main.go:86-91 | the handler redirects with its success tag exactly when the save went through, and otherwise reports a save failure |
| `Handlers.KeepUnmatched` | main.go:109-114 | the delete loop builds exactly the list of non-matching entries, in which no entry matches and whose length is the old length minus the matches |
| `Handlers.ReplaceFirstInPlace` | main.go:158-163 | the edit loop leaves the array equal to the replace-first list of its old contents |
| `Handlers.Diary.LoadEntries` | main.go:20-32 | loading reads the file without changing it and succeeds exactly when the file holds a list |
| `Handlers.Diary.SaveEntries` | main.go:34-45 | a written save replaces the file with the list, a failed create leaves it untouched, every failure is an IO error |
| `Handlers.Diary.Add` | main.go:62-92 | an empty date or content is a validation error and the file is neither loaded nor saved; a load failure leaves the file untouched; otherwise the file is saved as the new entry followed by the old list |
| `Handlers.Diary.Delete` | main.go:94-122 | a load failure leaves the file untouched; otherwise the file is saved as the old list without every matching entry and the reply is "deleted" whether or not anything matched |
| `Handlers.Diary.EditApply` | main.go:142-171 | a load failure leaves the file untouched; otherwise the file is saved as the old list with its first match replaced and the reply is "edited" whether or not anything matched |

## Left out

- Store.SaveThenLoad: the model assumes that a written save is read back exactly, so this lemma holds by the definition of the file model. The JSON round trip is not verified, and it fails for strings that are not valid UTF-8, which the encoder replaces with U+FFFD.
- Entry fields are modelled as Unicode text, while the program's strings are byte strings. Form values that are not valid UTF-8, and their replacement with U+FFFD when saved, are not modelled. So for such values the model's "add then delete removes the entry" does not hold of the program.
- JSON encoding and decoding and the file system calls: the file is a `FileState`, and the environment chooses whether a save succeeds. Whether a given byte string decodes is not modelled.
- Handlers.Diary.SaveEntries: a write that fails after the file was truncated leaves a state chosen by the environment. The model does not say which partial contents are possible.
- The index view (`indexHandler`) and the edit form (`editGetHandler`): `indexHandler` loads the list and renders it into an HTML template, and `editGetHandler` only echoes its query values into one without loading anything. Templates are not modelled. The load `indexHandler` does is `LoadEntries`.
- The HTTP method checks, the redirect status codes, the error messages, routing in `main` and the static file server: request plumbing. A request with the wrong method returns before any load or save.
- The error kinds of a load are collapsed into one `LoadFailed` reply, as the handlers use one message for both.
- Concurrent requests: each handler is modelled as one sequential load → mutate → save. The race in which overlapping requests lose each other's writes is not modelled.
- The error from closing the file after a load or save is ignored by the program and is not modelled.
