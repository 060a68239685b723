/** The slot editor of the alternative new-tab page: twenty text inputs of
    the form `url | title`, each parsed into a shortcut record or into an
    empty slot, and stored position by position as one array. */
module SlotEditor {
  import opened Common
  import opened Text
  import opened Web

  /** `MAX_SLOTS`. */
  const MaxSlots := 20

  datatype SlotRecord = SlotRecord(url: string, title: string)

  type Slots = seq<Option<SlotRecord>>

  /** The URL check of the slot editor: the string parses and its protocol
      starts with `http` (which admits `http:`, `https:` and any other
      scheme spelled with that prefix). */
  predicate IsHttpLike(parse: UrlParser, s: string): (b: bool)
    ensures b ==> parse(s).Some?
    ensures IsValidUrl(parse, s) ==> b
  {
    parse(s).Some? && StartsWith(parse(s).value.protocol, "http")
  }

  /** The slot editor's check is looser than the main page's: a scheme that
      merely starts with `http` passes it but not `isValidUrl`. */
  lemma HttpLikeAdmitsOtherSchemes()
    ensures var parse: UrlParser := (u: string) => Some(ParsedUrl("httpx:", "example.com"));
      IsHttpLike(parse, "httpx://example.com") && !IsValidUrl(parse, "httpx://example.com")
  {
    var parse: UrlParser := (u: string) => Some(ParsedUrl("httpx:", "example.com"));
    assert StartsWith("httpx:", "http");
  }

  /** `parseInput(value)`: an empty input is an empty slot. Otherwise the
      input is split on `|` and every piece trimmed; the first piece is the
      url, which must pass the URL check, the second (if any) the title, and
      further pieces are ignored. */
  function ParseInput(parse: UrlParser, value: string): (r: Option<SlotRecord>)
    ensures value == "" ==> r == None
    ensures value != "" ==>
      var parts := Split(value, '|');
      (r.Some? <==> IsHttpLike(parse, Trim(parts[0])))
      && (r.Some? ==>
            && r.value.url == Trim(parts[0])
            && r.value.title == (if |parts| >= 2 then Trim(parts[1]) else ""))
    ensures r.Some? ==> IsTrimmed(r.value.url) && IsTrimmed(r.value.title) && '|' !in r.value.url && '|' !in r.value.title
  {
    if value == "" then None
    else
      var parts := Split(value, '|');
      var urlPart := Trim(parts[0]);
      var titlePart := if |parts| >= 2 then Trim(parts[1]) else "";
      assert '|' !in urlPart && '|' !in titlePart by {
        assert forall c :: c in urlPart ==> c in parts[0];
        assert |parts| >= 2 ==> forall c :: c in titlePart ==> c in parts[1];
      }
      if IsHttpLike(parse, urlPart) then Some(SlotRecord(urlPart, titlePart)) else None
  }

  /** The text a filled slot is shown as in its input: `url | title`. */
  function SlotText(r: SlotRecord): string {
    r.url + " | " + r.title
  }

  /** The records `parseInput` produces are exactly those shown and read back
      unchanged: trimmed, free of `|`, with a URL that passes the check. */
  predicate WellFormed(parse: UrlParser, r: SlotRecord) {
    && IsTrimmed(r.url) && IsTrimmed(r.title)
    && '|' !in r.url && '|' !in r.title
    && IsHttpLike(parse, r.url)
  }

  /** `url | title` splits on `|` into the url with its blank and the title
      with its blank. */
  lemma SlotTextPieces(url: string, title: string)
    requires '|' !in url && '|' !in title
    ensures Split(url + " | " + title, '|') == [url + " ", " " + title]
  {
    var a := url + " ";
    var b := " " + title;
    assert url + " | " + title == a + ['|'] + b;
    assert '|' !in a by { assert forall c :: c in a ==> c in url || c == ' '; }
    assert '|' !in b by { assert forall c :: c in b ==> c in title || c == ' '; }
    SplitAtFirstSeparator(a, '|', b);
    SplitWithoutSeparator(b, '|');
  }

  /** Trimming the two pieces gives back the url and the title. */
  lemma SlotTextPiecesTrimmed(url: string, title: string)
    requires IsTrimmed(url) && IsTrimmed(title)
    ensures Trim(url + " ") == url && Trim(" " + title) == title
  {
    TrimPadded(url);
    TrimPadded(title);
  }

  /** Shown as text and parsed again, a well-formed record comes back
      unchanged. */
  lemma ParseSlotText(parse: UrlParser, r: SlotRecord)
    requires WellFormed(parse, r)
    ensures ParseInput(parse, SlotText(r)) == Some(r)
  {
    SlotTextPieces(r.url, r.title);
    SlotTextPiecesTrimmed(r.url, r.title);
  }

  /** `handleSave`: one entry per input, in input order. */
  function HandleSave(parse: UrlParser, inputs: seq<string>): (slots: Slots)
    ensures |slots| == |inputs|
    ensures forall i :: 0 <= i < |inputs| ==> slots[i] == ParseInput(parse, inputs[i])
  {
    seq(|inputs|, i requires 0 <= i < |inputs| => ParseInput(parse, inputs[i]))
  }

  /** The inputs as the dialog fills them from stored slots: an empty slot is
      an empty input. */
  function Rendered(slots: Slots): (inputs: seq<string>)
    ensures |inputs| == |slots|
  {
    seq(|slots|, i requires 0 <= i < |slots| => if slots[i].Some? then SlotText(slots[i].value) else "")
  }

  /** Opening the editor and saving it untouched stores the same slots back. */
  lemma SaveUntouched(parse: UrlParser, slots: Slots)
    requires forall i :: 0 <= i < |slots| && slots[i].Some? ==> WellFormed(parse, slots[i].value)
    ensures HandleSave(parse, Rendered(slots)) == slots
  {
    var saved := HandleSave(parse, Rendered(slots));
    forall i | 0 <= i < |slots| ensures saved[i] == slots[i] {
      if slots[i].Some? {
        ParseSlotText(parse, slots[i].value);
      }
    }
  }

  /** `Array(MAX_SLOTS).fill(null)`: all twenty slots empty. */
  function EmptySlots(): (slots: Slots)
    ensures |slots| == MaxSlots && forall i :: 0 <= i < |slots| ==> slots[i] == None
  {
    seq(MaxSlots, _ => None)
  }

  /** `handleReset`: after confirmation, the slots written are all empty;
      without it nothing is written. */
  function HandleReset(confirmed: bool): (written: Option<Slots>)
    ensures written.Some? <==> confirmed
    ensures written.Some? ==> |written.value| == MaxSlots && forall i :: 0 <= i < MaxSlots ==> written.value[i] == None
  {
    if confirmed then Some(EmptySlots()) else None
  }

  datatype Loaded = Loaded(shortcuts: Slots, showAllShortcuts: bool)

  /** `loadShortcuts`: stored values, with twenty empty slots and the short
      grid as defaults for keys that are absent. */
  function LoadShortcuts(storedShortcuts: Option<Slots>, storedShowAll: Option<bool>): (l: Loaded)
    ensures storedShortcuts.None? ==> l.shortcuts == EmptySlots()
    ensures storedShortcuts.Some? ==> l.shortcuts == storedShortcuts.value
    ensures l.showAllShortcuts == (storedShowAll.Some? && storedShowAll.value)
  {
    Loaded(
      if storedShortcuts.Some? then storedShortcuts.value else EmptySlots(),
      if storedShowAll.Some? then storedShowAll.value else false)
  }

  /** A reset page loads exactly like a page that never stored shortcuts. */
  lemma ResetLoadsDefault(storedShowAll: Option<bool>)
    ensures LoadShortcuts(HandleReset(true), storedShowAll) == LoadShortcuts(None, storedShowAll)
  {
  }
}
