/** The diary's entries and the three list operations the request handlers
    apply to them: insert at the front (add), remove every match (delete)
    and replace the first match (edit). An entry has no key of its own, so
    "match" always means equality of both the date and the content. */
module Entries {

  /** One diary record: a free-form date label and free-form text. */
  datatype Entry = Entry(date: string, content: string)

  datatype Option<T> = None | Some(value: T)

  /** An entry matches a (date, content) pair only when both fields agree,
      that is, when it is the entry built from that pair. */
  predicate Matches(e: Entry, date: string, content: string)
    ensures Matches(e, date, content) <==> e == Entry(date, content)
  {
    e.date == date && e.content == content
  }

  /** The number of entries of `s` that match (date, content). */
  function Count(s: seq<Entry>, date: string, content: string): (n: nat)
    ensures n <= |s|
    ensures n == 0 <==> forall k :: 0 <= k < |s| ==> !Matches(s[k], date, content)
  {
    if s == [] then 0
    else
      Count(s[..|s| - 1], date, content)
        + (if Matches(s[|s| - 1], date, content) then 1 else 0)
  }

  /** The index of the first entry of `s` that matches (date, content), if any. */
  function FirstMatch(s: seq<Entry>, date: string, content: string): (r: Option<nat>)
    ensures r.None? <==> forall k :: 0 <= k < |s| ==> !Matches(s[k], date, content)
    ensures r.Some? ==> r.value < |s| && Matches(s[r.value], date, content)
    ensures r.Some? ==> forall k :: 0 <= k < r.value ==> !Matches(s[k], date, content)
  {
    if s == [] then None
    else if Matches(s[0], date, content) then Some(0)
    else
      match FirstMatch(s[1..], date, content)
      case None => None
      case Some(i) => Some(i + 1)
  }

  // ---------------------------------------------------------------------
  // Insert at the front (addHandler)
  // ---------------------------------------------------------------------

  /** The list after adding `e`: one longer, the new entry first, and the
      old list after it in its original order. */
  function Prepend(e: Entry, s: seq<Entry>): (r: seq<Entry>)
    ensures |r| == |s| + 1
    ensures r[0] == e
    ensures forall k :: 0 <= k < |s| ==> r[k + 1] == s[k]
  {
    [e] + s
  }

  /** No duplicate check: adding a pair that is already present adds one more copy. */
  lemma {:induction false} PrependAddsOneMatch(e: Entry, s: seq<Entry>)
    ensures Count(Prepend(e, s), e.date, e.content) == Count(s, e.date, e.content) + 1
  {
    CountAppend([e], s, e.date, e.content);
  }

  // ---------------------------------------------------------------------
  // Remove every match (deleteHandler)
  // ---------------------------------------------------------------------

  /** The entries of `s` that do not match (date, content), in their order.
      Defined from the back, as the handler's loop appends them one by one.
      Every surviving entry comes from `s` and none of them matches. */
  function RemoveMatching(s: seq<Entry>, date: string, content: string): (r: seq<Entry>)
    ensures |r| <= |s|
    ensures forall k :: 0 <= k < |r| ==> !Matches(r[k], date, content)
  {
    if s == [] then []
    else
      RemoveMatching(s[..|s| - 1], date, content)
        + (if Matches(s[|s| - 1], date, content) then [] else [s[|s| - 1]])
  }

  /** An entry survives deletion exactly when it was present and does not match. */
  lemma {:induction false} RemoveMatchingMembers(s: seq<Entry>, date: string, content: string, e: Entry)
    ensures e in RemoveMatching(s, date, content) <==> e in s && !Matches(e, date, content)
  {
    if s != [] {
      var init := s[..|s| - 1];
      RemoveMatchingMembers(init, date, content, e);
      assert s == init + [s[|s| - 1]];
    }
  }

  /** No matching entry survives: all duplicates go, not just one. */
  lemma {:induction false} RemoveMatchingRemovesAll(s: seq<Entry>, date: string, content: string)
    ensures forall e :: e in RemoveMatching(s, date, content) ==> !Matches(e, date, content)
    ensures Count(RemoveMatching(s, date, content), date, content) == 0
  {
    forall e | e in RemoveMatching(s, date, content)
      ensures !Matches(e, date, content)
    {
      RemoveMatchingMembers(s, date, content, e);
    }
  }

  /** The result is one entry shorter for every match removed. */
  lemma {:induction false} RemoveMatchingLength(s: seq<Entry>, date: string, content: string)
    ensures |RemoveMatching(s, date, content)| == |s| - Count(s, date, content)
  {
    if s != [] {
      RemoveMatchingLength(s[..|s| - 1], date, content);
    }
  }

  /** The non-matching entries keep their relative order: `idx` lists, in
      increasing order, the position in `s` each surviving entry came from,
      and every non-matching position of `s` is among them. */
  lemma {:induction false} RemoveMatchingKeepsOrder(s: seq<Entry>, date: string, content: string)
    returns (idx: seq<nat>)
    ensures |idx| == |RemoveMatching(s, date, content)|
    ensures forall k :: 0 <= k < |idx| ==>
      idx[k] < |s| && RemoveMatching(s, date, content)[k] == s[idx[k]]
    ensures forall k, l :: 0 <= k < l < |idx| ==> idx[k] < idx[l]
    ensures forall j :: 0 <= j < |s| ==> (j in idx <==> !Matches(s[j], date, content))
  {
    if s == [] {
      idx := [];
    } else {
      var n := |s| - 1;
      var init := s[..n];
      var prev := RemoveMatchingKeepsOrder(init, date, content);
      if Matches(s[n], date, content) {
        idx := prev;
      } else {
        idx := prev + [n];
      }
    }
  }

  /** Deleting a pair that is not present changes nothing. */
  lemma {:induction false} RemoveMatchingAbsent(s: seq<Entry>, date: string, content: string)
    requires Count(s, date, content) == 0
    ensures RemoveMatching(s, date, content) == s
  {
    if s != [] {
      var init := s[..|s| - 1];
      assert Count(init, date, content) == 0;
      RemoveMatchingAbsent(init, date, content);
      assert s == init + [s[|s| - 1]];
    }
  }

  /** Deleting twice is deleting once. */
  lemma RemoveMatchingIdempotent(s: seq<Entry>, date: string, content: string)
    ensures RemoveMatching(RemoveMatching(s, date, content), date, content)
         == RemoveMatching(s, date, content)
  {
    RemoveMatchingRemovesAll(s, date, content);
    RemoveMatchingAbsent(RemoveMatching(s, date, content), date, content);
  }

  // ---------------------------------------------------------------------
  // Replace the first match (editPostHandler)
  // ---------------------------------------------------------------------

  /** Scans `s` from the front and overwrites only the first entry matching
      (oldDate, oldContent) with Entry(newDate, newContent); the rest of the
      list is not looked at. The length is kept, and every position holds
      either its old entry or the new one. */
  function ReplaceFirst(s: seq<Entry>, oldDate: string, oldContent: string,
                        newDate: string, newContent: string): (r: seq<Entry>)
    ensures |r| == |s|
    ensures forall k :: 0 <= k < |s| ==> r[k] == s[k] || r[k] == Entry(newDate, newContent)
  {
    if s == [] then []
    else if Matches(s[0], oldDate, oldContent) then [Entry(newDate, newContent)] + s[1..]
    else [s[0]] + ReplaceFirst(s[1..], oldDate, oldContent, newDate, newContent)
  }

  /** With a match, exactly the lowest-index match is replaced; every other
      position, including later duplicates of the old pair, is unchanged. */
  lemma {:induction false} ReplaceFirstAt(s: seq<Entry>, oldDate: string, oldContent: string,
                                          newDate: string, newContent: string, i: nat)
    requires FirstMatch(s, oldDate, oldContent) == Some(i)
    ensures ReplaceFirst(s, oldDate, oldContent, newDate, newContent)
         == s[i := Entry(newDate, newContent)]
  {
    var x := Entry(newDate, newContent);
    if Matches(s[0], oldDate, oldContent) {
      assert [x] + s[1..] == s[0 := x];
    } else {
      var tail := s[1..];
      ReplaceFirstAt(tail, oldDate, oldContent, newDate, newContent, i - 1);
      var r := [s[0]] + tail[i - 1 := x];
      assert |r| == |s[i := x]|;
      forall k | 0 <= k < |s|
        ensures r[k] == s[i := x][k]
      {
        if k > 0 { assert r[k] == tail[i - 1 := x][k - 1]; }
      }
    }
  }

  /** Without a match the list comes back exactly as it was. */
  lemma {:induction false} ReplaceFirstAbsent(s: seq<Entry>, oldDate: string, oldContent: string,
                                              newDate: string, newContent: string)
    requires Count(s, oldDate, oldContent) == 0
    ensures ReplaceFirst(s, oldDate, oldContent, newDate, newContent) == s
  {
    if s != [] {
      assert !Matches(s[0], oldDate, oldContent);
      assert Count(s[1..], oldDate, oldContent) == 0 by {
        assert forall k :: 0 <= k < |s[1..]| ==> s[1..][k] == s[k + 1];
      }
      ReplaceFirstAbsent(s[1..], oldDate, oldContent, newDate, newContent);
      assert s == [s[0]] + s[1..];
    }
  }

  /** Editing never changes the length of the list. */
  lemma {:induction false} ReplaceFirstLength(s: seq<Entry>, oldDate: string, oldContent: string,
                                              newDate: string, newContent: string)
    ensures |ReplaceFirst(s, oldDate, oldContent, newDate, newContent)| == |s|
  {
    if s != [] && !Matches(s[0], oldDate, oldContent) {
      ReplaceFirstLength(s[1..], oldDate, oldContent, newDate, newContent);
    }
  }

  /** An entry that matches the old pair on one field only is never touched:
      every position whose entry does not match keeps its entry. */
  lemma ReplaceFirstKeepsNonMatching(s: seq<Entry>, oldDate: string, oldContent: string,
                                     newDate: string, newContent: string, k: nat)
    requires k < |s| && !Matches(s[k], oldDate, oldContent)
    ensures |ReplaceFirst(s, oldDate, oldContent, newDate, newContent)| == |s|
    ensures ReplaceFirst(s, oldDate, oldContent, newDate, newContent)[k] == s[k]
  {
    ReplaceFirstLength(s, oldDate, oldContent, newDate, newContent);
    match FirstMatch(s, oldDate, oldContent)
    case None =>
      ReplaceFirstAbsent(s, oldDate, oldContent, newDate, newContent);
    case Some(i) =>
      ReplaceFirstAt(s, oldDate, oldContent, newDate, newContent, i);
  }

  // ---------------------------------------------------------------------
  // Counting matches, and the remove-all / replace-first asymmetry
  // ---------------------------------------------------------------------

  lemma {:induction false} CountAppend(a: seq<Entry>, b: seq<Entry>, date: string, content: string)
    ensures Count(a + b, date, content) == Count(a, date, content) + Count(b, date, content)
  {
    if b != [] {
      var bi := b[..|b| - 1];
      CountAppend(a, bi, date, content);
      assert (a + b)[..|a + b| - 1] == a + bi;
      assert (a + b)[|a + b| - 1] == b[|b| - 1];
    } else {
      assert a + b == a;
    }
  }

  /** Overwriting one position changes the number of matches by what was
      removed there and what was put there. */
  lemma {:induction false} CountUpdate(s: seq<Entry>, i: nat, x: Entry, date: string, content: string)
    requires i < |s|
    ensures Count(s[i := x], date, content)
         == Count(s, date, content)
            - (if Matches(s[i], date, content) then 1 else 0)
            + (if Matches(x, date, content) then 1 else 0)
  {
    var n := |s| - 1;
    var t := s[i := x];
    if i == n {
      assert t[..n] == s[..n];
      assert t[n] == x;
    } else {
      CountUpdate(s[..n], i, x, date, content);
      assert t[..n] == s[..n][i := x];
      assert t[n] == s[n] && s[..n][i] == s[i];
    }
  }

  /** The asymmetry between delete and edit: when the old pair occurs and
      the new pair differs from it, edit leaves one match fewer, whereas
      delete leaves none. */
  lemma EditRemovesOneMatch(s: seq<Entry>, oldDate: string, oldContent: string,
                            newDate: string, newContent: string)
    requires Count(s, oldDate, oldContent) > 0
    requires (newDate, newContent) != (oldDate, oldContent)
    ensures Count(ReplaceFirst(s, oldDate, oldContent, newDate, newContent), oldDate, oldContent)
         == Count(s, oldDate, oldContent) - 1
    ensures Count(RemoveMatching(s, oldDate, oldContent), oldDate, oldContent) == 0
  {
    var i := FirstMatch(s, oldDate, oldContent).value;
    ReplaceFirstAt(s, oldDate, oldContent, newDate, newContent, i);
    CountUpdate(s, i, Entry(newDate, newContent), oldDate, oldContent);
    RemoveMatchingRemovesAll(s, oldDate, oldContent);
  }

  /** Editing right after adding hits the entry just added, never an older
      duplicate of it; deleting right after adding removes the old copies too. */
  lemma AddThenEditOrDelete(e: Entry, s: seq<Entry>, newDate: string, newContent: string)
    ensures ReplaceFirst(Prepend(e, s), e.date, e.content, newDate, newContent)
         == Prepend(Entry(newDate, newContent), s)
    ensures RemoveMatching(Prepend(e, s), e.date, e.content)
         == RemoveMatching(s, e.date, e.content)
  {
    RemoveMatchingAppend([e], s, e.date, e.content);
  }

  lemma {:induction false} RemoveMatchingAppend(a: seq<Entry>, b: seq<Entry>, date: string, content: string)
    ensures RemoveMatching(a + b, date, content)
         == RemoveMatching(a, date, content) + RemoveMatching(b, date, content)
  {
    if b != [] {
      var bi := b[..|b| - 1];
      RemoveMatchingAppend(a, bi, date, content);
      assert (a + b)[..|a + b| - 1] == a + bi;
      assert (a + b)[|a + b| - 1] == b[|b| - 1];
    } else {
      assert a + b == a;
    }
  }

  // ---------------------------------------------------------------------
  // Non-empty fields: checked by add only
  // ---------------------------------------------------------------------

  /** Every entry has a non-empty date and a non-empty content. */
  predicate AllFilled(s: seq<Entry>)
  {
    forall k :: 0 <= k < |s| ==> s[k].date != "" && s[k].content != ""
  }

  /** Add only prepends after checking both fields, so it keeps every entry
      filled; delete only drops entries, so it does too. */
  lemma {:induction false} FilledKeptByAddAndDelete(s: seq<Entry>, date: string, content: string)
    requires AllFilled(s)
    ensures date != "" && content != "" ==> AllFilled(Prepend(Entry(date, content), s))
    ensures AllFilled(RemoveMatching(s, date, content))
  {
    var r := RemoveMatching(s, date, content);
    forall k | 0 <= k < |r|
      ensures r[k].date != "" && r[k].content != ""
    {
      RemoveMatchingMembers(s, date, content, r[k]);
    }
  }

  /** Edit checks nothing: it keeps entries filled exactly when the new
      fields are filled or there is nothing to replace. */
  lemma FilledAfterEdit(s: seq<Entry>, oldDate: string, oldContent: string,
                        newDate: string, newContent: string)
    requires AllFilled(s)
    ensures AllFilled(ReplaceFirst(s, oldDate, oldContent, newDate, newContent))
        <==> (newDate != "" && newContent != "") || Count(s, oldDate, oldContent) == 0
  {
    match FirstMatch(s, oldDate, oldContent)
    case None =>
      ReplaceFirstAbsent(s, oldDate, oldContent, newDate, newContent);
    case Some(i) =>
      ReplaceFirstAt(s, oldDate, oldContent, newDate, newContent, i);
      var r := s[i := Entry(newDate, newContent)];
      assert r[i] == Entry(newDate, newContent);
      assert Count(s, oldDate, oldContent) != 0;
  }

  // ---------------------------------------------------------------------
  // Worked examples
  // ---------------------------------------------------------------------

  /** Deleting the only stored entry empties the list; adding C to [A, B]
      gives [C, A, B]; editing A in [A, B] gives [A', B]. */
  lemma Examples(a: Entry, b: Entry, c: Entry, newDate: string, newContent: string)
    ensures RemoveMatching([Entry("2024-01-01", "hello")], "2024-01-01", "hello") == []
    ensures Prepend(c, [a, b]) == [c, a, b]
    ensures ReplaceFirst([a, b], a.date, a.content, newDate, newContent)
         == [Entry(newDate, newContent), b]
  {
    assert [Entry("2024-01-01", "hello")][..0] == [];
  }

  /** With two copies of the same entry, delete removes both and edit only
      the first. */
  lemma DuplicatesExample(a: Entry, b: Entry, newDate: string, newContent: string)
    requires !Matches(b, a.date, a.content)
    ensures RemoveMatching([a, b, a], a.date, a.content) == [b]
    ensures ReplaceFirst([a, b, a], a.date, a.content, newDate, newContent)
         == [Entry(newDate, newContent), b, a]
  {
    assert [a, b, a][..2] == [a, b];
    assert [a, b][..1] == [a];
    assert [a][..0] == [];
    assert RemoveMatching([a], a.date, a.content) == [];
    assert RemoveMatching([a, b], a.date, a.content) == [b];
  }
}
