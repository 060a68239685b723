/** The local search history of the new-tab page: a most-recent-first list
    of past queries, at most one per query text up to case, capped at 50. */
module SearchHistory {
  import opened Text

  /** `MAX_SEARCH_HISTORY`. */
  const MaxSearchHistory := 50

  datatype Entry = Entry(query: string, timestamp: int)

  /** The test `entry.query.toLowerCase() === query.toLowerCase()`. */
  predicate Matches(e: Entry, q: string) {
    EqualsIgnoreCase(e.query, q)
  }

  /** The history's own invariant: no query text occurs twice up to case. */
  ghost predicate DistinctIgnoringCase(h: seq<Entry>) {
    forall i, j :: 0 <= i < j < |h| ==> !EqualsIgnoreCase(h[i].query, h[j].query)
  }

  /** `saveSearchHistory`: only the first 50 entries are written. */
  function Saved(h: seq<Entry>): (r: seq<Entry>)
    ensures |r| == if |h| <= MaxSearchHistory then |h| else MaxSearchHistory
    ensures r == h[..|r|]
  {
    if |h| > MaxSearchHistory then h[..MaxSearchHistory] else h
  }

  /** The history with its first entry matching `q` taken out (the effect of
      `findIndex` followed by `splice(index, 1)`). */
  function WithoutFirstMatch(h: seq<Entry>, q: string): (r: seq<Entry>)
    ensures |r| <= |h| <= |r| + 1
    ensures forall e :: e in r ==> e in h
  {
    if h == [] then []
    else if Matches(h[0], q) then h[1..]
    else [h[0]] + WithoutFirstMatch(h[1..], q)
  }

  /** The entries of `h` that do not match `q`, in their order. */
  function Unmatched(h: seq<Entry>, q: string): (r: seq<Entry>)
    ensures |r| <= |h|
    ensures forall e :: e in r <==> e in h && !Matches(e, q)
  {
    if h == [] then []
    else (if Matches(h[0], q) then [] else [h[0]]) + Unmatched(h[1..], q)
  }

  /** The stored history after `addToSearchHistory(q)` at time `now`: `q` is
      the newest entry and the list still fits the cap. */
  function Recorded(h: seq<Entry>, q: string, now: int): (r: seq<Entry>)
    ensures 1 <= |r| <= MaxSearchHistory
    ensures r[0] == Entry(q, now)
    ensures forall e :: e in r[1..] ==> e in h
  {
    Saved([Entry(q, now)] + WithoutFirstMatch(h, q))
  }

  /** `findIndex` over the history with the case-insensitive test: the first
      matching position, or -1 when no entry matches. */
  function FirstMatchIndex(h: seq<Entry>, q: string): (i: int)
    ensures -1 <= i < |h|
    ensures i == -1 ==> forall j :: 0 <= j < |h| ==> !Matches(h[j], q)
    ensures 0 <= i ==> Matches(h[i], q) && forall j :: 0 <= j < i ==> !Matches(h[j], q)
  {
    if h == [] then -1
    else if Matches(h[0], q) then 0
    else
      var k := FirstMatchIndex(h[1..], q);
      if k == -1 then -1 else k + 1
  }

  /** Removing the first match at a known position is a splice there. */
  lemma {:induction false} WithoutFirstMatchAt(h: seq<Entry>, q: string, i: int)
    requires -1 <= i < |h|
    requires i == -1 ==> forall j :: 0 <= j < |h| ==> !Matches(h[j], q)
    requires 0 <= i ==> Matches(h[i], q) && forall j :: 0 <= j < i ==> !Matches(h[j], q)
    ensures WithoutFirstMatch(h, q) == if i == -1 then h else h[..i] + h[i + 1..]
    decreases |h|
  {
    if h != [] && i != 0 {
      WithoutFirstMatchAt(h[1..], q, if i == -1 then -1 else i - 1);
      if i == -1 {
        assert [h[0]] + h[1..] == h;
      } else {
        WithoutFirstMatchAtStep(h, q, i);
      }
    }
  }

  /** The step of `WithoutFirstMatchAt`: a non-matching head stays in front
      of the splice made in the tail. */
  lemma WithoutFirstMatchAtStep(h: seq<Entry>, q: string, i: int)
    requires 0 < i < |h| && !Matches(h[0], q)
    requires WithoutFirstMatch(h[1..], q) == h[1..][..i - 1] + h[1..][i..]
    ensures WithoutFirstMatch(h, q) == h[..i] + h[i + 1..]
  {
    var tail := h[1..];
    calc {
      WithoutFirstMatch(h, q);
    ==
      [h[0]] + WithoutFirstMatch(tail, q);
    ==
      [h[0]] + (tail[..i - 1] + tail[i..]);
    == { assert [h[0]] + tail[..i - 1] == h[..i] && tail[i..] == h[i + 1..]; }
      h[..i] + h[i + 1..];
    }
  }

  /** Under the invariant there is at most one match, so removing the first
      match removes every match. */
  lemma {:induction false} WithoutFirstMatchIsUnmatched(h: seq<Entry>, q: string)
    requires DistinctIgnoringCase(h)
    ensures WithoutFirstMatch(h, q) == Unmatched(h, q)
    decreases |h|
  {
    if h != [] {
      assert DistinctIgnoringCase(h[1..]) by {
        forall i, j | 0 <= i < j < |h[1..]|
          ensures !EqualsIgnoreCase(h[1..][i].query, h[1..][j].query)
        {
          assert h[1..][i] == h[i + 1] && h[1..][j] == h[j + 1];
        }
      }
      if Matches(h[0], q) {
        forall e | e in h[1..] ensures !Matches(e, q) {
          var j :| 0 <= j < |h[1..]| && h[1..][j] == e;
          assert h[j + 1] == e;
          assert !EqualsIgnoreCase(h[0].query, h[j + 1].query);
        }
        UnmatchedOfUnmatched(h[1..], q);
      } else {
        WithoutFirstMatchIsUnmatched(h[1..], q);
      }
    }
  }

  /** Filtering a list none of whose entries match changes nothing. */
  lemma {:induction false} UnmatchedOfUnmatched(h: seq<Entry>, q: string)
    requires forall e :: e in h ==> !Matches(e, q)
    ensures Unmatched(h, q) == h
    decreases |h|
  {
    if h != [] {
      assert h[0] in h;
      UnmatchedOfUnmatched(h[1..], q);
      assert [h[0]] + h[1..] == h;
    }
  }

  /** Keeping the non-matching entries keeps the invariant. */
  lemma {:induction false} UnmatchedKeepsDistinct(h: seq<Entry>, q: string)
    requires DistinctIgnoringCase(h)
    ensures DistinctIgnoringCase(Unmatched(h, q))
    decreases |h|
  {
    if h != [] {
      var tail := h[1..];
      assert DistinctIgnoringCase(tail) by {
        forall i, j | 0 <= i < j < |tail|
          ensures !EqualsIgnoreCase(tail[i].query, tail[j].query)
        {
          assert tail[i] == h[i + 1] && tail[j] == h[j + 1];
        }
      }
      UnmatchedKeepsDistinct(tail, q);
      var rest := Unmatched(tail, q);
      if !Matches(h[0], q) {
        forall e | e in rest ensures !EqualsIgnoreCase(h[0].query, e.query) {
          var k :| 0 <= k < |tail| && tail[k] == e;
          assert h[k + 1] == e;
        }
        ConsKeepsDistinct(h[0], rest);
      }
    }
  }

  /** A prefix of a list with the invariant has the invariant. */
  lemma SavedKeepsDistinct(h: seq<Entry>)
    requires DistinctIgnoringCase(h)
    ensures DistinctIgnoringCase(Saved(h))
  {
    var r := Saved(h);
    forall i, j | 0 <= i < j < |r|
      ensures !EqualsIgnoreCase(r[i].query, r[j].query)
    {
      assert r[i] == h[i] && r[j] == h[j];
    }
  }

  /** Recording a query behaves as a least-recently-used list: every entry
      matching `q` up to case leaves, `q` is put in front, the rest keep their
      order, and the oldest fall off beyond 50. The invariant is kept, so `q`
      occurs exactly once, at index 0. */
  lemma RecordedIsMostRecentFirst(h: seq<Entry>, q: string, now: int)
    requires DistinctIgnoringCase(h)
    ensures Recorded(h, q, now) == Saved([Entry(q, now)] + Unmatched(h, q))
    ensures DistinctIgnoringCase(Recorded(h, q, now))
    ensures forall i :: 0 < i < |Recorded(h, q, now)| ==> !Matches(Recorded(h, q, now)[i], q)
  {
    WithoutFirstMatchIsUnmatched(h, q);
    UnmatchedKeepsDistinct(h, q);
    var u := Unmatched(h, q);
    var full := [Entry(q, now)] + u;
    assert DistinctIgnoringCase(full) by {
      forall i, j | 0 <= i < j < |full|
        ensures !EqualsIgnoreCase(full[i].query, full[j].query)
      {
        if i == 0 {
          assert full[j] in u;
          assert !Matches(full[j], q);
        } else {
          assert full[i] == u[i - 1] && full[j] == u[j - 1];
        }
      }
    }
    SavedKeepsDistinct(full);
    var r := Recorded(h, q, now);
    forall i | 0 < i < |r| ensures !Matches(r[i], q) {
      assert r[i] == full[i] && full[i] == u[i - 1];
      assert u[i - 1] in u;
    }
  }

  /** Removing the first match depends on the query only up to case. */
  lemma {:induction false} WithoutFirstMatchIgnoresCase(h: seq<Entry>, q1: string, q2: string)
    requires EqualsIgnoreCase(q1, q2)
    ensures WithoutFirstMatch(h, q1) == WithoutFirstMatch(h, q2)
    decreases |h|
  {
    if h != [] {
      WithoutFirstMatchIgnoresCase(h[1..], q1, q2);
    }
  }

  /** Recording the same query twice (up to case) leaves one entry for it, at
      the front, with the later spelling and timestamp: the same history as
      recording only the second time. */
  lemma RecordTwice(h: seq<Entry>, q1: string, t1: int, q2: string, t2: int)
    requires EqualsIgnoreCase(q1, q2)
    ensures Recorded(Recorded(h, q1, t1), q2, t2) == Recorded(h, q2, t2)
  {
    var w := WithoutFirstMatch(h, q1);
    var once := Recorded(h, q1, t1);
    assert Matches(once[0], q2);
    assert WithoutFirstMatch(once, q2) == once[1..];
    WithoutFirstMatchIgnoresCase(h, q1, q2);
    var a := [Entry(q2, t2)] + once[1..];
    var b := [Entry(q2, t2)] + w;
    assert Saved(a) == Saved(b) by {
      assert |Saved(a)| == |Saved(b)|;
      forall i | 0 <= i < |Saved(a)| ensures Saved(a)[i] == Saved(b)[i] {
        if i > 0 {
          assert a[i] == once[i] == ([Entry(q1, t1)] + w)[i] == b[i];
        }
      }
    }
  }

  /** The test `entry.query.toLowerCase().slice(0, query.length) ===
      query.toLowerCase()`, which is a case-insensitive `startsWith`. */
  function MatchesPrefix(e: Entry, query: string): (b: bool)
    ensures b <==> StartsWith(Lower(e.query), Lower(query))
  {
    var l := Lower(e.query);
    (if |query| <= |l| then l[..|query|] else l) == Lower(query)
  }

  /** The `filter` over the history with `MatchesPrefix`. */
  function KeepPrefixed(h: seq<Entry>, query: string): (r: seq<Entry>)
    ensures |r| <= |h|
    ensures forall e :: e in r <==> e in h && MatchesPrefix(e, query)
  {
    if h == [] then []
    else (if MatchesPrefix(h[0], query) then [h[0]] else []) + KeepPrefixed(h[1..], query)
  }

  /** `filterSearchHistory`: a blank query (empty, or whitespace only) shows
      the whole history; otherwise exactly the entries that start with the
      query up to case. */
  function FilterSearchHistory(h: seq<Entry>, query: string): (r: seq<Entry>)
    ensures Trim(query) == "" ==> r == h
    ensures Trim(query) != "" ==>
      forall e :: e in r <==> e in h && StartsWith(Lower(e.query), Lower(query))
  {
    // `!query || query.trim() === ""`: the empty string is also blank.
    if Trim(query) == "" then h else KeepPrefixed(h, query)
  }

  /** The filter keeps the history's order: filtering a concatenation is the
      concatenation of the filtered parts. */
  lemma {:induction false} KeepPrefixedAppend(a: seq<Entry>, b: seq<Entry>, query: string)
    ensures KeepPrefixed(a + b, query) == KeepPrefixed(a, query) + KeepPrefixed(b, query)
    decreases |a|
  {
    if a != [] {
      assert (a + b)[1..] == a[1..] + b;
      KeepPrefixedAppend(a[1..], b, query);
    } else {
      assert a + b == b;
    }
  }

  /** Filtering twice with the same query is filtering once. */
  lemma {:induction false} FilterIdempotent(h: seq<Entry>, query: string)
    ensures FilterSearchHistory(FilterSearchHistory(h, query), query) == FilterSearchHistory(h, query)
  {
    if Trim(query) != "" {
      KeepPrefixedIdempotent(h, query);
    }
  }

  lemma {:induction false} KeepPrefixedIdempotent(h: seq<Entry>, query: string)
    ensures KeepPrefixed(KeepPrefixed(h, query), query) == KeepPrefixed(h, query)
    decreases |h|
  {
    if h != [] {
      KeepPrefixedIdempotent(h[1..], query);
      var head := if MatchesPrefix(h[0], query) then [h[0]] else [];
      KeepPrefixedAppend(head, KeepPrefixed(h[1..], query), query);
      if head != [] {
        assert KeepPrefixed(head, query) == head by {
          assert head[1..] == [];
        }
      }
    }
  }

  /** `history.filter((h) => h.query !== query)`: the exact-case removal the
      delete button performs. */
  function WithoutQuery(h: seq<Entry>, q: string): (r: seq<Entry>)
    ensures |r| <= |h|
    ensures forall e :: e in r <==> e in h && e.query != q
  {
    if h == [] then []
    else (if h[0].query == q then [] else [h[0]]) + WithoutQuery(h[1..], q)
  }

  /** The delete keeps the history's order: removing from a concatenation is
      concatenating what is left of each part. */
  lemma {:induction false} WithoutQueryAppend(a: seq<Entry>, b: seq<Entry>, q: string)
    ensures WithoutQuery(a + b, q) == WithoutQuery(a, q) + WithoutQuery(b, q)
    decreases |a|
  {
    if a != [] {
      assert (a + b)[1..] == a[1..] + b;
      WithoutQueryAppend(a[1..], b, q);
    } else {
      assert a + b == b;
    }
  }

  /** When exactly one entry has the deleted query, the delete splices out
      that entry and nothing else. */
  lemma WithoutQueryAt(h: seq<Entry>, q: string, k: nat)
    requires k < |h| && h[k].query == q
    requires forall i :: 0 <= i < |h| && i != k ==> h[i].query != q
    ensures WithoutQuery(h, q) == h[..k] + h[k + 1..]
  {
    var before, after := h[..k], h[k + 1..];
    assert forall i :: 0 <= i < |after| ==> after[i] == h[k + 1 + i];
    assert h == before + [h[k]] + after;
    WithoutQuerySplice(before, h[k], after, q);
  }

  /** The step of `WithoutQueryAt`: the one entry with the query leaves,
      and what surrounds it stays. */
  lemma WithoutQuerySplice(before: seq<Entry>, x: Entry, after: seq<Entry>, q: string)
    requires x.query == q
    requires forall i :: 0 <= i < |before| ==> before[i].query != q
    requires forall i :: 0 <= i < |after| ==> after[i].query != q
    ensures WithoutQuery(before + [x] + after, q) == before + after
  {
    calc {
      WithoutQuery(before + [x] + after, q);
    == { WithoutQueryAppend(before + [x], after, q); }
      WithoutQuery(before + [x], q) + WithoutQuery(after, q);
    == { WithoutQueryAppend(before, [x], q); }
      WithoutQuery(before, q) + WithoutQuery([x], q) + WithoutQuery(after, q);
    == { WithoutQueryAbsent(before, q); WithoutQueryAbsent(after, q); assert WithoutQuery([x], q) == []; }
      before + [] + after;
    == { assert before + [] == before; }
      before + after;
    }
  }

  /** Deleting a query that no entry has changes nothing. */
  lemma {:induction false} WithoutQueryAbsent(h: seq<Entry>, q: string)
    requires forall i :: 0 <= i < |h| ==> h[i].query != q
    ensures WithoutQuery(h, q) == h
    decreases |h|
  {
    if h != [] {
      WithoutQueryAbsent(h[1..], q);
      assert [h[0]] + h[1..] == h;
    }
  }

  /** The delete keeps the history free of case-insensitive duplicates. */
  lemma {:induction false} WithoutQueryKeepsDistinct(h: seq<Entry>, q: string)
    requires DistinctIgnoringCase(h)
    ensures DistinctIgnoringCase(WithoutQuery(h, q))
    decreases |h|
  {
    if h != [] {
      var tail := h[1..];
      assert DistinctIgnoringCase(tail) by {
        forall i, j | 0 <= i < j < |tail|
          ensures !EqualsIgnoreCase(tail[i].query, tail[j].query)
        {
          assert tail[i] == h[i + 1] && tail[j] == h[j + 1];
        }
      }
      WithoutQueryKeepsDistinct(tail, q);
      var rest := WithoutQuery(tail, q);
      if h[0].query != q {
        forall e | e in rest ensures !EqualsIgnoreCase(h[0].query, e.query) {
          var k :| 0 <= k < |tail| && tail[k] == e;
          assert h[k + 1] == e;
        }
        ConsKeepsDistinct(h[0], rest);
      }
    }
  }

  /** An entry whose query differs up to case from every query of a
      duplicate-free history can go in front of it. */
  lemma ConsKeepsDistinct(x: Entry, h: seq<Entry>)
    requires DistinctIgnoringCase(h)
    requires forall e :: e in h ==> !EqualsIgnoreCase(x.query, e.query)
    ensures DistinctIgnoringCase([x] + h)
  {
    var r := [x] + h;
    forall i, j | 0 <= i < j < |r|
      ensures !EqualsIgnoreCase(r[i].query, r[j].query)
    {
      assert r[j] == h[j - 1];
      if i > 0 {
        assert r[i] == h[i - 1];
      }
    }
  }

  /** What the delete button of a shown history item stores, as written: it
      removes the item from the list the dropdown was rendered from, which is
      the stored history already filtered by the typed text, and saves that. */
  function DeleteShownEntry(stored: seq<Entry>, typed: string, q: string): (r: seq<Entry>)
    ensures forall e :: e in r ==> e in stored && e.query != q
    ensures Trim(typed) != "" ==> forall e :: e in r ==> StartsWith(Lower(e.query), Lower(Trim(typed)))
  {
    Saved(WithoutQuery(FilterSearchHistory(stored, Trim(typed)), q))
  }

  /** The delete as written is the intended delete applied to the shown
      list instead of the stored one. */
  lemma DeleteShownEntryIsDeleteOfShown(stored: seq<Entry>, typed: string, q: string)
    ensures DeleteShownEntry(stored, typed, q) == DeleteHistoryEntry(FilterSearchHistory(stored, Trim(typed)), q)
  {
  }

  /** Within the cap, the delete as written keeps every shown entry with
      another query: what it loses is exactly what the typed text had
      hidden. */
  lemma DeleteShownEntryKeepsShown(stored: seq<Entry>, typed: string, q: string)
    requires |FilterSearchHistory(stored, Trim(typed))| <= MaxSearchHistory
    ensures forall e :: e in FilterSearchHistory(stored, Trim(typed)) && e.query != q ==> e in DeleteShownEntry(stored, typed, q)
  {
    DeleteShownEntryIsDeleteOfShown(stored, typed, q);
  }

  /** Deleting one shown item while text is typed erases the stored entries
      that do not match the typed text: with history `apple, banana` and `a`
      typed, deleting `apple` stores an empty history, losing `banana`. */
  lemma DeleteWhileTypingLosesHistory()
    ensures var stored := [Entry("apple", 2), Entry("banana", 1)];
      && Entry("banana", 1) !in DeleteShownEntry(stored, "a", "apple")
      && Entry("banana", 1) in DeleteHistoryEntry(stored, "apple")
  {
    var stored := [Entry("apple", 2), Entry("banana", 1)];
    var banana := Entry("banana", 1);
    assert Trim("a") == "a" by {
      assert IsTrimmed("a");
    }
    assert banana !in FilterSearchHistory(stored, "a") by {
      assert Lower("banana")[0] == 'b' && Lower("a")[0] == 'a';
      assert !StartsWith(Lower(banana.query), Lower("a"));
    }
    assert banana !in DeleteShownEntry(stored, "a", "apple");
    assert banana in stored && banana.query != "apple";
  }

  /** Deleting a history entry, as intended: the stored history loses the
      entries with that exact query text and keeps every other entry, in
      order, whatever is typed in the search box. */
  function DeleteHistoryEntry(stored: seq<Entry>, q: string): (r: seq<Entry>)
    ensures forall e :: e in r ==> e in stored && e.query != q
    ensures |stored| <= MaxSearchHistory ==>
      forall e :: e in stored && e.query != q ==> e in r
  {
    Saved(WithoutQuery(stored, q))
  }

  /** The search history as the page holds it while it updates it. */
  class History {
    var entries: seq<Entry>

    /** `getSearchHistory`: the stored list, or empty when nothing is stored. */
    constructor (stored: seq<Entry>)
      ensures entries == stored
    {
      entries := stored;
    }

    /** `addToSearchHistory(query)` at time `now`: find the first entry equal
        up to case, splice it out, unshift the new entry, cut the list at 50
        and save it. */
    method Add(query: string, now: int)
      modifies this
      ensures entries == Recorded(old(entries), query, now)
      ensures DistinctIgnoringCase(old(entries)) ==> DistinctIgnoringCase(entries)
    {
      var history := entries;
      var existingIndex := FirstMatchIndex(history, query);
      WithoutFirstMatchAt(history, query, existingIndex);
      if existingIndex != -1 {
        history := history[..existingIndex] + history[existingIndex + 1..];
      }
      history := [Entry(query, now)] + history;
      if |history| > MaxSearchHistory {
        history := history[..MaxSearchHistory];
      }
      entries := Saved(history);
      if DistinctIgnoringCase(old(entries)) {
        RecordedIsMostRecentFirst(old(entries), query, now);
      }
    }

    /** The delete button of a history item, with the stored history (not the
        filtered one shown) as the list it removes from. */
    method Delete(query: string)
      modifies this
      ensures entries == DeleteHistoryEntry(old(entries), query)
      ensures DistinctIgnoringCase(old(entries)) ==> DistinctIgnoringCase(entries)
    {
      if DistinctIgnoringCase(entries) {
        WithoutQueryKeepsDistinct(entries, query);
        SavedKeepsDistinct(WithoutQuery(entries, query));
      }
      entries := DeleteHistoryEntry(entries, query);
    }
  }
}
