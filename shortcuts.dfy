/** The shortcut grid of the new-tab page: an ordered list of at most 20
    bookmarks with unique ids, changed by the add, edit, delete and
    drag-to-reorder flows. */
module Shortcuts {
  import opened Common
  import opened Text
  import opened Web

  /** `MAX_SHORTCUTS`. */
  const MaxShortcuts := 20

  datatype Shortcut = Shortcut(id: string, title: string, url: string)

  ghost predicate UniqueIds(s: seq<Shortcut>) {
    forall i, j :: 0 <= i < j < |s| ==> s[i].id != s[j].id
  }

  /** What every flow keeps true of the stored list: within the cap, ids
      unique, every url an http(s) URL. */
  ghost predicate ListInvariant(parse: UrlParser, s: seq<Shortcut>) {
    && |s| <= MaxShortcuts
    && UniqueIds(s)
    && forall i :: 0 <= i < |s| ==> IsValidUrl(parse, s[i].url)
  }

  /** `shortcuts.findIndex((s) => s.id === id)`. */
  function IndexOfId(s: seq<Shortcut>, id: string): (i: int)
    ensures -1 <= i < |s|
    ensures i == -1 ==> forall j :: 0 <= j < |s| ==> s[j].id != id
    ensures 0 <= i ==> s[i].id == id && forall j :: 0 <= j < i ==> s[j].id != id
  {
    if s == [] then -1
    else if s[0].id == id then 0
    else
      var k := IndexOfId(s[1..], id);
      if k == -1 then -1 else k + 1
  }

  // ----- Form validation -----------------------------------------------

  datatype FieldError = TitleRequired | UrlInvalid

  datatype FormOutcome =
    | Rejected(shown: FieldError)
    | EditRequest(id: string, title: string, url: string)
    | AddRequest(title: string, url: string)

  /** `handleFormSubmit`: both fields are trimmed; a missing title or an
      empty or non-http(s) url rejects the form. Each error display clears
      the previous one, so when both fields are wrong only the url error is
      left on screen. A non-empty `data-shortcut-id` makes it an edit. */
  function SubmitShortcutForm(parse: UrlParser, titleValue: string, urlValue: string, shortcutId: Option<string>): (o: FormOutcome)
    ensures o.Rejected? <==> Trim(titleValue) == "" || Trim(urlValue) == "" || !IsValidUrl(parse, Trim(urlValue))
    ensures o.Rejected? ==> (o.shown == TitleRequired <==> IsValidUrl(parse, Trim(urlValue)) && Trim(urlValue) != "")
    ensures !o.Rejected? ==> o.title == Trim(titleValue) && o.title != "" && o.url == Trim(urlValue) && IsValidUrl(parse, o.url)
    ensures o.EditRequest? <==> !o.Rejected? && shortcutId.Some? && shortcutId.value != ""
  {
    var title := Trim(titleValue);
    var url := Trim(urlValue);
    var titleMissing := title == "";
    var urlWrong := url == "" || !IsValidUrl(parse, url);
    if urlWrong then Rejected(UrlInvalid)
    else if titleMissing then Rejected(TitleRequired)
    else if shortcutId.Some? && shortcutId.value != "" then EditRequest(shortcutId.value, title, url)
    else AddRequest(title, url)
  }

  // ----- Add -------------------------------------------------------------

  datatype AddOutcome = Added | LimitExceeded

  /** The list after `handleAddShortcut(title, url)` with `id` from the
      fresh-id oracle: refused at the cap, otherwise one new entry at the end. */
  function WithAdded(s: seq<Shortcut>, id: string, title: string, url: string): (r: seq<Shortcut>)
    ensures |s| >= MaxShortcuts ==> r == s
    ensures |s| < MaxShortcuts ==> |r| == |s| + 1 && r[..|s|] == s && r[|s|] == Shortcut(id, title, url)
  {
    if |s| >= MaxShortcuts then s else s + [Shortcut(id, title, url)]
  }

  /** Adding a validated url with a fresh id keeps the list invariant. */
  lemma AddKeepsInvariant(parse: UrlParser, s: seq<Shortcut>, id: string, title: string, url: string)
    requires ListInvariant(parse, s)
    requires IsValidUrl(parse, url)
    requires forall j :: 0 <= j < |s| ==> s[j].id != id
    ensures ListInvariant(parse, WithAdded(s, id, title, url))
  {
    var r := WithAdded(s, id, title, url);
    if |s| < MaxShortcuts {
      forall i, j | 0 <= i < j < |r| ensures r[i].id != r[j].id {
        if j == |s| {
          assert r[i] == s[i];
        } else {
          assert r[i] == s[i] && r[j] == s[j];
        }
      }
      forall i | 0 <= i < |r| ensures IsValidUrl(parse, r[i].url) {
        if i < |s| {
          assert r[i] == s[i];
        }
      }
    }
  }

  // ----- Edit ------------------------------------------------------------

  /** The list after `handleEditShortcut(id, title, url)`. */
  function Edited(s: seq<Shortcut>, id: string, title: string, url: string): (r: seq<Shortcut>)
    ensures |r| == |s|
    ensures forall k :: 0 <= k < |s| ==> r[k].id == s[k].id
    ensures IndexOfId(s, id) == -1 ==> r == s
    ensures forall k :: 0 <= k < |s| && k != IndexOfId(s, id) ==> r[k] == s[k]
    ensures IndexOfId(s, id) != -1 ==>
      r[IndexOfId(s, id)] == Shortcut(id, title, url)
  {
    var index := IndexOfId(s, id);
    if index == -1 then s else s[index := s[index].(title := title, url := url)]
  }

  /** Editing with a validated url keeps the list invariant. */
  lemma EditKeepsInvariant(parse: UrlParser, s: seq<Shortcut>, id: string, title: string, url: string)
    requires ListInvariant(parse, s)
    requires IsValidUrl(parse, url)
    ensures ListInvariant(parse, Edited(s, id, title, url))
  {
    var r := Edited(s, id, title, url);
    forall i, j | 0 <= i < j < |r| ensures r[i].id != r[j].id {
      assert r[i].id == s[i].id && r[j].id == s[j].id;
    }
  }

  // ----- Delete ----------------------------------------------------------

  /** `shortcuts.filter((s) => s.id !== id)`. */
  function Removed(s: seq<Shortcut>, id: string): (r: seq<Shortcut>)
    ensures |r| <= |s|
    ensures forall x :: x in r <==> x in s && x.id != id
  {
    if s == [] then []
    else (if s[0].id == id then [] else [s[0]]) + Removed(s[1..], id)
  }

  /** Deleting an id that is present in a list with unique ids removes
      exactly one entry; deleting an absent id changes nothing. */
  lemma {:induction false} RemovedCount(s: seq<Shortcut>, id: string)
    requires UniqueIds(s)
    ensures IndexOfId(s, id) == -1 ==> Removed(s, id) == s
    ensures IndexOfId(s, id) != -1 ==> |Removed(s, id)| == |s| - 1
    decreases |s|
  {
    if s != [] {
      assert UniqueIds(s[1..]) by {
        forall i, j | 0 <= i < j < |s[1..]| ensures s[1..][i].id != s[1..][j].id {
          assert s[1..][i] == s[i + 1] && s[1..][j] == s[j + 1];
        }
      }
      RemovedCount(s[1..], id);
      if s[0].id == id {
        assert IndexOfId(s[1..], id) == -1 by {
          forall j | 0 <= j < |s[1..]| ensures s[1..][j].id != id {
            assert s[1..][j] == s[j + 1];
          }
        }
      } else if IndexOfId(s, id) == -1 {
        assert [s[0]] + s[1..] == s;
      }
    }
  }

  /** Deleting keeps the ids unique. */
  lemma RemovedKeepsUnique(s: seq<Shortcut>, id: string)
    requires UniqueIds(s)
    ensures UniqueIds(Removed(s, id))
  {
    var k := IndexOfId(s, id);
    if k == -1 {
      RemovedAbsent(s, id);
    } else {
      RemovedAt(s, id);
      SpliceKeepsUnique(s, k);
    }
  }

  /** Splicing one entry out keeps the ids unique. */
  lemma SpliceKeepsUnique(s: seq<Shortcut>, k: nat)
    requires UniqueIds(s) && k < |s|
    ensures UniqueIds(s[..k] + s[k + 1..])
  {
    var r := s[..k] + s[k + 1..];
    forall i, j | 0 <= i < j < |r| ensures r[i].id != r[j].id {
      var i' := if i < k then i else i + 1;
      var j' := if j < k then j else j + 1;
      assert r[i] == s[i'] && r[j] == s[j'];
    }
  }

  /** Deleting an id that no entry has changes nothing. */
  lemma {:induction false} RemovedAbsent(s: seq<Shortcut>, id: string)
    requires forall j :: 0 <= j < |s| ==> s[j].id != id
    ensures Removed(s, id) == s
    decreases |s|
  {
    if s != [] {
      RemovedAbsent(s[1..], id);
      assert [s[0]] + s[1..] == s;
    }
  }

  /** On a list with unique ids, deleting a present id splices out exactly
      the entry `findIndex` locates; the others keep their grid order. */
  lemma {:induction false} RemovedAt(s: seq<Shortcut>, id: string)
    requires UniqueIds(s)
    requires IndexOfId(s, id) != -1
    ensures var k := IndexOfId(s, id); Removed(s, id) == s[..k] + s[k + 1..]
    decreases |s|
  {
    var tail := s[1..];
    if s[0].id == id {
      forall j | 0 <= j < |tail| ensures tail[j].id != id {
        assert tail[j] == s[j + 1];
      }
      RemovedAbsent(tail, id);
      assert s[..0] + s[1..] == tail;
    } else {
      assert UniqueIds(tail) by {
        forall i, j | 0 <= i < j < |tail| ensures tail[i].id != tail[j].id {
          assert tail[i] == s[i + 1] && tail[j] == s[j + 1];
        }
      }
      RemovedAt(tail, id);
      RemovedAtStep(s, id, IndexOfId(tail, id));
    }
  }

  /** The step of `RemovedAt`: a kept first entry stays in front of the
      spliced tail. */
  lemma RemovedAtStep(s: seq<Shortcut>, id: string, k: nat)
    requires s != [] && s[0].id != id && k < |s| - 1
    requires Removed(s[1..], id) == s[1..][..k] + s[1..][k + 1..]
    ensures Removed(s, id) == s[..k + 1] + s[k + 2..]
  {
    var tail := s[1..];
    calc {
      Removed(s, id);
      [s[0]] + Removed(tail, id);
      [s[0]] + (tail[..k] + tail[k + 1..]);
      ([s[0]] + tail[..k]) + tail[k + 1..];
      { assert [s[0]] + tail[..k] == s[..k + 1]; assert tail[k + 1..] == s[k + 2..]; }
      s[..k + 1] + s[k + 2..];
    }
  }

  /** Deleting keeps the list invariant. */
  lemma RemoveKeepsInvariant(parse: UrlParser, s: seq<Shortcut>, id: string)
    requires ListInvariant(parse, s)
    ensures ListInvariant(parse, Removed(s, id))
  {
    var r := Removed(s, id);
    RemovedKeepsUnique(s, id);
    forall i | 0 <= i < |r| ensures IsValidUrl(parse, r[i].url) {
      assert r[i] in s;
      var k :| 0 <= k < |s| && s[k] == r[i];
    }
  }

  // ----- Reorder ---------------------------------------------------------

  /** Splice the entry at `from` out, then splice it back in at `to`, the
      target's index taken before the removal. */
  function Moved(s: seq<Shortcut>, from: nat, to: nat): (r: seq<Shortcut>)
    requires from < |s| && to < |s|
    ensures |r| == |s|
    ensures multiset(r) == multiset(s)
  {
    var rest := s[..from] + s[from + 1..];
    var r := rest[..to] + [s[from]] + rest[to..];
    assert multiset(s) == multiset(rest) + multiset{s[from]} by {
      assert s == s[..from] + [s[from]] + s[from + 1..];
    }
    assert multiset(r) == multiset(rest) + multiset{s[from]} by {
      assert rest == rest[..to] + rest[to..];
    }
    r
  }

  /** Where the entry at position `k` of a moved list came from: the moved
      entry lands at `to`, the entries between the two positions shift by one
      toward `from`, and every other entry stays put. */
  function MovedSource(from: nat, to: nat, k: nat): nat {
    if k == to then from
    else if from < to && from <= k < to then k + 1
    else if to < from && to < k <= from then k - 1
    else k
  }

  /** The move, entry by entry: position `k` holds what was at
      `MovedSource(from, to, k)`; this is a bijection on the positions. */
  lemma MovedAt(s: seq<Shortcut>, from: nat, to: nat)
    requires from < |s| && to < |s|
    ensures forall k :: 0 <= k < |s| ==> MovedSource(from, to, k) < |s|
    ensures forall k :: 0 <= k < |s| ==> Moved(s, from, to)[k] == s[MovedSource(from, to, k)]
    ensures forall k1, k2 :: 0 <= k1 < k2 < |s| ==> MovedSource(from, to, k1) != MovedSource(from, to, k2)
  {
    var rest := s[..from] + s[from + 1..];
    var r := Moved(s, from, to);
    assert forall k :: 0 <= k < |rest| ==> rest[k] == if k < from then s[k] else s[k + 1];
    forall k | 0 <= k < |s| ensures r[k] == s[MovedSource(from, to, k)] {
      if k < to {
        assert r[k] == rest[k];
      } else if k > to {
        assert r[k] == rest[k - 1];
      }
    }
  }

  /** The list after `handleShortcutReorder(draggedId, targetId)`: unchanged
      when the ids are equal or either is absent, otherwise the dragged entry
      moved to the target's position. */
  function Reordered(s: seq<Shortcut>, draggedId: string, targetId: string): (r: seq<Shortcut>)
    ensures |r| == |s| && multiset(r) == multiset(s)
    ensures draggedId == targetId || IndexOfId(s, draggedId) == -1 || IndexOfId(s, targetId) == -1 ==> r == s
    ensures draggedId != targetId && IndexOfId(s, draggedId) != -1 && IndexOfId(s, targetId) != -1 ==>
      r[IndexOfId(s, targetId)] == s[IndexOfId(s, draggedId)]
  {
    if draggedId == targetId then s
    else
      var draggedIndex := IndexOfId(s, draggedId);
      var targetIndex := IndexOfId(s, targetId);
      if draggedIndex == -1 || targetIndex == -1 then s
      else Moved(s, draggedIndex, targetIndex)
  }

  /** Reordering keeps the list invariant: same entries, so the same urls and
      the same ids, each still once. */
  lemma ReorderKeepsInvariant(parse: UrlParser, s: seq<Shortcut>, draggedId: string, targetId: string)
    requires ListInvariant(parse, s)
    ensures ListInvariant(parse, Reordered(s, draggedId, targetId))
  {
    var from := IndexOfId(s, draggedId);
    var to := IndexOfId(s, targetId);
    if draggedId != targetId && from != -1 && to != -1 {
      var r := Moved(s, from, to);
      MovedAt(s, from, to);
      forall i, j | 0 <= i < j < |r| ensures r[i].id != r[j].id {
        var a, b := MovedSource(from, to, i), MovedSource(from, to, j);
        assert a != b;
        if a < b {
          assert s[a].id != s[b].id;
        } else {
          assert s[b].id != s[a].id;
        }
      }
    }
  }

  // ----- Icons -----------------------------------------------------------

  /** `getInitialCharacter`: the glyph drawn when no favicon is available.
      A missing or blank title gives `?`; otherwise the first non-blank
      character, upper-cased. */
  function InitialCharacter(text: Option<string>): (c: string)
    ensures |c| == 1
    ensures text.None? || Trim(text.value) == "" ==> c == "?"
    ensures text.Some? && Trim(text.value) != "" ==>
      && !IsWhitespace(c[0]) && !('a' <= c[0] <= 'z')
      && LowerChar(c[0]) == LowerChar(Trim(text.value)[0])
  {
    if text.None? || Trim(text.value) == "" then "?"
    else
      var first := Trim(text.value)[0];
      UpperCharIsUpper(first);
      [UpperChar(first)]
  }

  // ----- The list as the page updates it --------------------------------

  /** The stored shortcut list as the handlers read, change and write it. */
  class ShortcutList {
    var items: seq<Shortcut>

    constructor (stored: seq<Shortcut>)
      ensures items == stored
    {
      items := stored;
    }

    /** `handleAddShortcut`: refuse at the cap, else push a new entry. */
    method Add(title: string, url: string, freshId: string) returns (outcome: AddOutcome)
      modifies this
      ensures outcome == if |old(items)| >= MaxShortcuts then LimitExceeded else Added
      ensures items == WithAdded(old(items), freshId, title, url)
    {
      if |items| >= MaxShortcuts {
        return LimitExceeded;
      }
      items := items + [Shortcut(freshId, title, url)];
      outcome := Added;
    }

    /** `handleEditShortcut`: replace title and url of the entry with `id`
        in place; nothing happens when no entry has that id. */
    method Edit(id: string, title: string, url: string)
      modifies this
      ensures items == Edited(old(items), id, title, url)
    {
      var index := IndexOfId(items, id);
      if index == -1 {
        return;
      }
      items := items[index := items[index].(title := title, url := url)];
    }

    /** `handleDeleteShortcut`: when an entry with `id` exists and the user
        confirms, keep every entry with another id. */
    method Delete(id: string, confirmed: bool)
      modifies this
      ensures items == if IndexOfId(old(items), id) != -1 && confirmed then Removed(old(items), id) else old(items)
    {
      if IndexOfId(items, id) == -1 || !confirmed {
        return;
      }
      items := Removed(items, id);
    }

    /** `handleShortcutReorder`: splice the dragged entry out and back in at
        the target's index. */
    method Reorder(draggedId: string, targetId: string)
      modifies this
      ensures items == Reordered(old(items), draggedId, targetId)
    {
      if draggedId == targetId {
        return;
      }
      var draggedIndex := IndexOfId(items, draggedId);
      var targetIndex := IndexOfId(items, targetId);
      if draggedIndex == -1 || targetIndex == -1 {
        return;
      }
      var draggedShortcut := items[draggedIndex];
      var rest := items[..draggedIndex] + items[draggedIndex + 1..];
      items := rest[..targetIndex] + [draggedShortcut] + rest[targetIndex..];
    }
  }
}
