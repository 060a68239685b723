/** The search bar of the new-tab page: the dropdown that merges matching
    history with remote suggestions, the keyboard selection over it, and the
    rule that turns a submitted host name into a direct navigation. */
module SearchBar {
  import opened Common
  import opened Text
  import opened Web
  import opened SearchHistory

  /** `MAX_DISPLAYED_ITEMS`. */
  const MaxDisplayedItems := 8

  /** One row of the dropdown; its text is the row's `data-query`. */
  datatype Item = HistoryItem(query: string) | SuggestionItem(text: string)

  function Min(a: int, b: int): int {
    if a <= b then a else b
  }

  /** `history.some((h) => h.query.toLowerCase() === s.toLowerCase())`. */
  predicate InHistory(h: seq<Entry>, s: string) {
    exists i :: 0 <= i < |h| && EqualsIgnoreCase(h[i].query, s)
  }

  /** The suggestions that do not repeat a history entry up to case, in
      their order. */
  function FreshSuggestions(suggestions: seq<string>, h: seq<Entry>): (r: seq<string>)
    ensures |r| <= |suggestions|
    ensures forall s :: s in r <==> s in suggestions && !InHistory(h, s)
  {
    if suggestions == [] then []
    else
      (if InHistory(h, suggestions[0]) then [] else [suggestions[0]])
      + FreshSuggestions(suggestions[1..], h)
  }

  function HistoryItems(h: seq<Entry>): seq<Item> {
    seq(|h|, i requires 0 <= i < |h| => HistoryItem(h[i].query))
  }

  function SuggestionItems(s: seq<string>): seq<Item> {
    seq(|s|, i requires 0 <= i < |s| => SuggestionItem(s[i]))
  }

  /** The rows `renderCombinedDropdown(history, suggestions)` shows: at most
      eight history rows first, then suggestions from the slots that are
      left, minus those that repeat any history entry up to case. At most
      eight rows in all, and no suggestion row duplicates the history. */
  function DisplayedItems(h: seq<Entry>, suggestions: seq<string>): (r: seq<Item>)
    ensures Min(|h|, MaxDisplayedItems) <= |r| <= MaxDisplayedItems
    ensures |h| >= MaxDisplayedItems ==> r == HistoryItems(h[..MaxDisplayedItems])
    ensures forall i :: 0 <= i < Min(|h|, MaxDisplayedItems) ==> r[i] == HistoryItem(h[i].query)
    ensures forall i :: Min(|h|, MaxDisplayedItems) <= i < |r| ==>
      r[i].SuggestionItem? && r[i].text in suggestions && !InHistory(h, r[i].text)
    ensures h == [] && suggestions == [] ==> r == []
    // the suggestion rows: the list is first cut to the slots left, and only
    // then are the repeats of the history dropped, order kept
    ensures r[Min(|h|, MaxDisplayedItems)..] ==
      SuggestionItems(FreshSuggestions(suggestions[..Min(MaxDisplayedItems - Min(|h|, MaxDisplayedItems), |suggestions|)], h))
  {
    var shown := Min(|h|, MaxDisplayedItems);
    var remainingSlots := MaxDisplayedItems - shown;
    var sliced := suggestions[..Min(remainingSlots, |suggestions|)];
    var kept := FreshSuggestions(sliced, h);
    var r := HistoryItems(h[..shown]) + SuggestionItems(kept);
    assert forall i :: shown <= i < |r| ==> r[i].text == kept[i - shown];
    assert forall s :: s in sliced ==> s in suggestions;
    assert r[shown..] == SuggestionItems(kept);
    r
  }

  /** The suggestion list shown at once on input: for a non-empty query,
      the literal query alone when no history entry matches, otherwise none;
      an empty query shows no suggestion row. The handler passes the query
      already trimmed, so empty here means blank as typed. */
  function ImmediateSuggestions(filteredHistory: seq<Entry>, query: string): (r: seq<string>)
    ensures r == [] || r == [query]
    ensures r != [] <==> query != "" && filteredHistory == []
  {
    if query != "" && |filteredHistory| == 0 then [query] else []
  }

  /** Whether the typed query already occurs, up to case, among the matching
      history or the fetched suggestions. */
  predicate HasExactMatch(filteredHistory: seq<Entry>, suggestions: seq<string>, query: string): (b: bool)
    ensures forall e :: e in filteredHistory && EqualsIgnoreCase(e.query, query) ==> b
    ensures forall s :: s in suggestions && EqualsIgnoreCase(s, query) ==> b
    ensures b ==> filteredHistory != [] || suggestions != []
  {
    InHistory(filteredHistory, query)
      || exists i :: 0 <= i < |suggestions| && EqualsIgnoreCase(suggestions[i], query)
  }

  /** Whether the query is already shown does not depend on its case. */
  lemma HasExactMatchIgnoresCase(filteredHistory: seq<Entry>, suggestions: seq<string>, q1: string, q2: string)
    requires EqualsIgnoreCase(q1, q2)
    ensures HasExactMatch(filteredHistory, suggestions, q1) == HasExactMatch(filteredHistory, suggestions, q2)
  {
  }

  /** The suggestion list rendered after the debounce: the fetched
      suggestions, with the literal query put first unless it is already
      there up to case. */
  function FinalSuggestions(filteredHistory: seq<Entry>, suggestions: seq<string>, query: string): (r: seq<string>)
    ensures |r| == |suggestions| + (if HasExactMatch(filteredHistory, suggestions, query) then 0 else 1)
    ensures r[|r| - |suggestions|..] == suggestions
    ensures |r| > |suggestions| ==> r[0] == query
  {
    if HasExactMatch(filteredHistory, suggestions, query) then suggestions else [query] + suggestions
  }

  /** When fewer than eight history rows match and nothing equals the typed
      query, the debounced dropdown offers the query itself right after the
      history rows. */
  lemma LiteralQueryOffered(fh: seq<Entry>, suggestions: seq<string>, query: string)
    requires |fh| < MaxDisplayedItems
    requires !HasExactMatch(fh, suggestions, query)
    ensures |fh| < |DisplayedItems(fh, FinalSuggestions(fh, suggestions, query))|
    ensures DisplayedItems(fh, FinalSuggestions(fh, suggestions, query))[|fh|] == SuggestionItem(query)
  {
    var fin := FinalSuggestions(fh, suggestions, query);
    var sliced := fin[..Min(MaxDisplayedItems - |fh|, |fin|)];
    assert sliced == [query] + sliced[1..];
    assert !InHistory(fh, query);
    assert FreshSuggestions(sliced, fh) == [query] + FreshSuggestions(sliced[1..], fh);
  }

  /** JavaScript's `%`, which truncates toward zero (the sign follows the
      dividend). */
  function JsRemainder(a: int, n: int): (r: int)
    requires n > 0
    ensures a >= 0 ==> 0 <= r < n
    ensures a < 0 ==> -n < r <= 0
    ensures (a - r) % n == 0
  {
    if a >= 0 then
      assert a - a % n == (a / n) * n;
      MultipleOf(a / n, n);
      a % n
    else
      var b := -a;
      assert a + b % n == (-(b / n)) * n by {
        assert b == (b / n) * n + b % n;
        assert (-(b / n)) * n == -((b / n) * n);
      }
      MultipleOf(-(b / n), n);
      -(b % n)
  }

  /** A multiple of `n` leaves no remainder. */
  lemma MultipleOf(q: int, n: int)
    requires n > 0
    ensures (q * n) % n == 0
  {
    var x := q * n;
    var d := x / n;
    var m := x % n;
    assert (q - d) * n == m by {
      assert x == d * n + m;
      assert (q - d) * n == q * n - d * n;
    }
    ProductBounds(q - d, n);
  }

  /** A non-zero multiple of `n` is at least `n` away from zero. */
  lemma ProductBounds(k: int, n: int)
    requires n > 0
    ensures k >= 1 ==> k * n >= n
    ensures k <= -1 ==> k * n <= -n
  {
    if k >= 1 {
      assert k * n == (k - 1) * n + n;
    } else if k <= -1 {
      assert k * n == (k + 1) * n - n;
    }
  }

  datatype Key = ArrowDown | ArrowUp | Enter | Escape | OtherKey

  /** The selected row index after a key press over `n > 0` rows. */
  function NextIndex(key: Key, i: int, n: int): (j: int)
    requires n > 0
    ensures key == ArrowDown && i >= -1 ==> 0 <= j < n && (i + 1 - j) % n == 0
    ensures key == ArrowUp && i <= 0 ==> j == n - 1
    ensures key == ArrowUp && i > 0 ==> j == i - 1
    ensures key == ArrowUp && i >= -1 ==> (0 <= j < n <==> i <= n)
    ensures key == Escape ==> j == -1
    ensures key == OtherKey ==> j == if i >= 0 then -1 else i
    ensures key == Enter ==> j == i
  {
    match key
    case ArrowDown => JsRemainder(i + 1, n)
    case ArrowUp => if i <= 0 then n - 1 else i - 1
    case Enter => i
    case Escape => -1
    case OtherKey => if i >= 0 then -1 else i
  }

  /** One arrow-down press moves to the next row, and from the last row
      wraps to the first. */
  lemma ArrowDownStep(i: int, n: int)
    requires n > 0 && -1 <= i < n
    ensures NextIndex(ArrowDown, i, n) == if i + 1 < n then i + 1 else 0
  {
    if i + 1 == n {
      assert n % n == 0;
    }
  }

  /** Arrow-down and arrow-up undo each other on a selected row. */
  lemma ArrowsAreInverse(i: int, n: int)
    requires 0 <= i < n
    ensures NextIndex(ArrowUp, NextIndex(ArrowDown, i, n), n) == i
    ensures NextIndex(ArrowDown, NextIndex(ArrowUp, i, n), n) == i
  {
    ArrowDownStep(i, n);
    ArrowDownStep(NextIndex(ArrowUp, i, n), n);
  }

  /** The index after pressing arrow-down `k` times. */
  function PressDown(i: int, k: nat, n: int): int
    requires n > 0
  {
    if k == 0 then i else NextIndex(ArrowDown, PressDown(i, k - 1, n), n)
  }

  /** Presses compose: `a + b` presses are `a` presses followed by `b`. */
  lemma {:induction false} PressDownCompose(i: int, a: nat, b: nat, n: int)
    requires n > 0
    ensures PressDown(i, a + b, n) == PressDown(PressDown(i, a, n), b, n)
  {
    if b > 0 {
      PressDownCompose(i, a, b - 1, n);
    }
  }

  /** Before the last row is reached, each press moves one row on. */
  lemma {:induction false} PressDownWalks(i: int, k: nat, n: int)
    requires n > 0 && -1 <= i && i + k < n
    ensures PressDown(i, k, n) == i + k
  {
    if k > 0 {
      PressDownWalks(i, k - 1, n);
      ArrowDownStep(i + k - 1, n);
    }
  }

  /** Arrow-down cycles: from a selected row, `n` presses over `n` rows come
      back to the same row. */
  lemma PressDownFullCircle(i: int, n: int)
    requires 0 <= i < n
    ensures PressDown(i, n, n) == i
  {
    var toLast := n - 1 - i;
    PressDownWalks(i, toLast, n);
    PressDownCompose(i, toLast, i + 1, n);
    PressDownCompose(n - 1, 1, i, n);
    ArrowDownStep(n - 1, n);
    PressDownWalks(0, i, n);
  }

  /** What a key press does besides moving the index. */
  datatype KeyEffect =
    | NoEffect
    | Echo(text: string)         // the selected row's text is put in the input
    | SubmitItem(text: string)   // recorded into history, then the form submits
    | HideDropdown
    | ClearHighlight
    | ReadPastEnd                // `items[i]` is undefined and the handler throws
    | SwallowEnter               // the form's submission is prevented, and nothing is submitted

  /** The effect of a key over the rows `items` with index `i` before it. */
  function KeyEffectOf(key: Key, i: int, items: seq<string>): (e: KeyEffect)
    requires items != []
    ensures key == ArrowDown && i >= -1 ==> e == Echo(items[NextIndex(key, i, |items|)])
    ensures key == ArrowUp && -1 <= i <= |items| ==> e == Echo(items[NextIndex(key, i, |items|)])
    ensures key == Enter && 0 <= i < |items| ==> e == SubmitItem(items[i])
    ensures key == Enter && i >= |items| ==> e == SwallowEnter
    ensures key == Enter && i < 0 ==> e == NoEffect
    ensures key == Escape ==> e == HideDropdown
    ensures key == OtherKey ==> (e == ClearHighlight <==> i >= 0) && (e == ClearHighlight || e == NoEffect)
    ensures i >= -1 ==> (e == ReadPastEnd <==> key == ArrowUp && i > |items|)
  {
    var n := |items|;
    var j := NextIndex(key, i, n);
    match key
    case ArrowDown | ArrowUp => if 0 <= j < n then Echo(items[j]) else ReadPastEnd
    case Enter => if i < 0 then NoEffect else if i < n then SubmitItem(items[i]) else SwallowEnter
    case Escape => HideDropdown
    case OtherKey => if i >= 0 then ClearHighlight else NoEffect
  }

  /** `selectedHistoryIndex`, the one piece of state the search input's
      handlers share. */
  class Selection {
    var index: int

    /** Every handler keeps the index at -1 (nothing selected) or above. */
    ghost predicate Valid()
      reads this
    {
      index >= -1
    }

    constructor ()
      ensures Valid() && index == -1
    {
      index := -1;
    }

    /** The focus, input and blur handlers clear the selection. */
    method Reset()
      modifies this
      ensures Valid() && index == -1
    {
      index := -1;
    }

    /** The keydown handler over the rows currently shown. */
    method KeyDown(key: Key, items: seq<string>) returns (effect: KeyEffect)
      requires Valid()
      modifies this
      ensures Valid()
      ensures items == [] ==> index == old(index) && effect == NoEffect
      ensures items != [] ==> index == NextIndex(key, old(index), |items|)
      ensures items != [] ==> effect == KeyEffectOf(key, old(index), items)
    {
      effect := NoEffect;
      if |items| == 0 {
        return;
      }
      var n := |items|;
      if key == ArrowDown {
        index := JsRemainder(index + 1, n);
        effect := Echo(items[index]);
      } else if key == ArrowUp {
        index := if index <= 0 then n - 1 else index - 1;
        effect := if index < n then Echo(items[index]) else ReadPastEnd;
      } else if key == Enter && index >= 0 {
        // `preventDefault` runs before the row is looked up, so a stale
        // index past the last row swallows the key press.
        effect := if index < n then SubmitItem(items[index]) else SwallowEnter;
      } else if key == Escape {
        effect := HideDropdown;
        index := -1;
      } else {
        if index >= 0 {
          index := -1;
          effect := ClearHighlight;
        }
      }
    }
  }

  /** What submitting the search form does. */
  datatype SubmitOutcome =
    | ClearEmpty               // blank input: submission prevented, input cleared
    | Navigate(url: string)    // submission prevented, the page goes to `url`
    | SearchFor(query: string) // `query` is recorded into history, the form submits

  /** Whether a trimmed query looks like a bare host name: it has a dot, no
      space, and does not already start with `http`. */
  predicate LooksLikeHost(q: string): (b: bool)
    ensures b ==> '.' in q && ' ' !in q
    ensures StartsWith(q, "http") ==> !b
  {
    '.' in q && ' ' !in q && !StartsWith(q, "http")
  }

  /** A host name gets `https://` once: the prefixed query no longer looks
      like a bare host. */
  lemma HostPrefixedOnce(q: string)
    requires LooksLikeHost(q)
    ensures !LooksLikeHost("https://" + q)
  {
    assert ("https://" + q)[..4] == "http";
  }

  /** The submit handler: blank input is dropped; a bare host name gets
      `https://` in front; a valid http(s) URL is navigated to directly and
      anything else is searched for (and recorded, prefix included). */
  function SubmitSearch(parse: UrlParser, value: string): (o: SubmitOutcome)
    ensures o == ClearEmpty <==> Trim(value) == ""
    ensures o.Navigate? ==> IsValidUrl(parse, o.url)
    ensures o.SearchFor? ==> !IsValidUrl(parse, o.query) && o.query != ""
    ensures Trim(value) != "" ==>
      var target := if LooksLikeHost(Trim(value)) then "https://" + Trim(value) else Trim(value);
      o == Navigate(target) || o == SearchFor(target)
    ensures ' ' in Trim(value) ==> o == Navigate(Trim(value)) || o == SearchFor(Trim(value))
  {
    var query := Trim(value);
    if query == "" then ClearEmpty
    else
      var query := if LooksLikeHost(query) then "https://" + query else query;
      if IsValidUrl(parse, query) then Navigate(query) else SearchFor(query)
  }
}
