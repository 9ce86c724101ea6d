/** The page state of dom-manipulation/script.js and its handlers. Each
    handler runs to completion before the next one starts. The DOM is
    reduced to what the handlers read back: the option values of the
    category `<select>`, its value, and the quote on display. */
module QuoteApp {
  import opened Wrappers
  import opened Storage
  import opened Quotes
  import opened Sync

  /** How `syncWithServer` ends: the fetch or the JSON decoding failed, or
      the merge ran and reported its two counters. */
  datatype SyncOutcome = SyncFailed | Synced(added: nat, updated: nat)

  class Page {
    /** The module-level `quotes` array. */
    var quotes: seq<Quote>
    /** The rendered quote; `currentQuoteId` is its id. */
    var shown: Option<Quote>
    /** The option values of the category filter, "all" first. */
    var options: seq<string>
    /** `categoryFilter.value`. */
    var selection: string
    /** `localStorage["dqg_quotes"]`. */
    var savedQuotes: Slot<Quote>
    /** `localStorage["dqg_lastFilter"]`. */
    var savedFilter: Option<string>
    /** The id kept under `sessionStorage["dqg_lastViewedQuote"]`. */
    var lastViewed: Option<string>

    /** The stored quote list is the one in memory. */
    ghost predicate Persisted()
      reads this
    {
      savedQuotes == Holds(quotes)
    }

    /** The page before `init`: an empty list and only the "all" option, with
      whatever the two storages hold. */
    constructor (saved: Slot<Quote>, filter: Option<string>, viewed: Option<string>)
      ensures quotes == [] && shown == None && options == ["all"] && selection == "all"
      ensures savedQuotes == saved && savedFilter == filter && lastViewed == viewed
    {
      quotes := [];
      shown := None;
      options := ["all"];
      selection := "all";
      savedQuotes := saved;
      savedFilter := filter;
      lastViewed := viewed;
    }

    /** `currentFilteredQuotes()`: the quotes the current selection shows. */
    function CurrentFilteredQuotes(): (view: seq<Quote>)
      reads this
      ensures selection == "all" ==> view == quotes
      ensures selection != "all" ==> forall q :: q in view <==> q in quotes && q.category == selection
      ensures |view| <= |quotes|
    {
      FilteredQuotes(quotes, selection)
    }

    /** `persistQuotes()`. */
    method PersistQuotes()
      modifies this
      ensures Persisted()
      ensures quotes == old(quotes) && shown == old(shown) && options == old(options)
      ensures selection == old(selection) && savedFilter == old(savedFilter) && lastViewed == old(lastViewed)
    {
      savedQuotes := Holds(quotes);
    }

    /** `loadQuotes()`: a stored array becomes the list as it is; otherwise
      the five seed quotes (ids `seedIds`, stamped `now`) are loaded and
      written back. Either way the stored copy is the list afterwards. */
    method LoadQuotes(seedIds: seq<string>, now: int)
      requires |seedIds| == 5
      modifies this
      ensures old(savedQuotes).Holds? ==> quotes == old(savedQuotes).items && savedQuotes == old(savedQuotes)
      ensures !old(savedQuotes).Holds? ==> quotes == Seed(seedIds, now)
      ensures Persisted()
      ensures shown == old(shown) && options == old(options) && selection == old(selection)
      ensures savedFilter == old(savedFilter) && lastViewed == old(lastViewed)
    {
      match savedQuotes
      case Holds(items) =>
        quotes := items;
      case _ =>
        quotes := Seed(seedIds, now);
        PersistQuotes();
    }

    /** `populateCategories()`: rebuilds the options from the list and
      restores the saved filter when it is one of them, "all" otherwise.
      The saved filter itself is left alone. */
    method PopulateCategories()
      modifies this
      ensures options == Options(quotes) && selection == EffectiveSelection(quotes, savedFilter)
      ensures quotes == old(quotes) && shown == old(shown) && savedQuotes == old(savedQuotes)
      ensures savedFilter == old(savedFilter) && lastViewed == old(lastViewed)
    {
      options := Options(quotes);
      selection := EffectiveSelection(quotes, savedFilter);
    }

    /** `renderQuote(q)`: displays `q` and records its id as last viewed. */
    method RenderQuote(q: Quote)
      modifies this
      ensures shown == Some(q) && lastViewed == Some(q.id)
      ensures quotes == old(quotes) && options == old(options) && selection == old(selection)
      ensures savedQuotes == old(savedQuotes) && savedFilter == old(savedFilter)
    {
      shown := Some(q);
      lastViewed := Some(q.id);
    }

    /** `showRandomQuote()`, with the random index given as `choice`: an
      empty view clears the display, otherwise a quote of the view is
      rendered. */
    method ShowRandomQuote(choice: nat)
      modifies this
      ensures var view := old(CurrentFilteredQuotes());
        if view == [] then shown == None && lastViewed == old(lastViewed)
        else shown == Some(view[choice % |view|]) && lastViewed == Some(view[choice % |view|].id)
      ensures shown.Some? ==> shown.value in quotes && (selection == "all" || shown.value.category == selection)
      ensures quotes == old(quotes) && options == old(options) && selection == old(selection)
      ensures savedQuotes == old(savedQuotes) && savedFilter == old(savedFilter)
    {
      var list := CurrentFilteredQuotes();
      if |list| == 0 {
        shown := None;
      } else {
        var pick := list[choice % |list|];
        assert pick in list;
        RenderQuote(pick);
      }
    }

    /** `filterQuotes()` after the user picked `sel` in the filter: the
      choice is saved and a quote of the new view is shown. */
    method FilterQuotes(sel: string, choice: nat)
      requires sel in options
      modifies this
      ensures selection == sel && savedFilter == Some(sel)
      ensures var view := FilteredQuotes(quotes, sel);
        if view == [] then shown == None && lastViewed == old(lastViewed)
        else shown == Some(view[choice % |view|]) && lastViewed == Some(view[choice % |view|].id)
      ensures quotes == old(quotes) && options == old(options) && savedQuotes == old(savedQuotes)
    {
      selection := sel;
      savedFilter := Some(sel);
      ShowRandomQuote(choice);
    }

    /** `quotes.push(q); persistQuotes();`: the record goes last and the list
      is stored. A record whose id the list lacks is then found by that id
      at the new last position, and distinct ids stay distinct. */
    method PushQuote(q: Quote)
      modifies this
      ensures quotes == old(quotes) + [q] && Persisted()
      ensures IdUnused(old(quotes), q.id) ==>
        FindIndex(quotes, q.id) == Some(|old(quotes)|) && (old(DistinctIds(quotes)) ==> DistinctIds(quotes))
      ensures shown == old(shown) && options == old(options) && selection == old(selection)
      ensures savedFilter == old(savedFilter) && lastViewed == old(lastViewed)
    {
      AppendFreshId(quotes, q);
      quotes := quotes + [q];
      PersistQuotes();
    }

    /** The end of `addQuote()`: the filter is repopulated and the new
      record rendered when the resulting selection shows its category. */
    method RefreshAfterAdd(q: Quote)
      modifies this
      ensures options == Options(quotes) && selection == EffectiveSelection(quotes, savedFilter)
      ensures if Shows(selection, q.category)
        then shown == Some(q) && lastViewed == Some(q.id)
        else shown == old(shown) && lastViewed == old(lastViewed)
      ensures quotes == old(quotes) && savedQuotes == old(savedQuotes) && savedFilter == old(savedFilter)
    {
      PopulateCategories();
      if Shows(selection, q.category) {
        RenderQuote(q);
      }
    }

    /** `addQuote()` with the typed fields, the fresh `uid()` and the time.
      A refused input changes nothing. An accepted one appends exactly one
      local record, persists the list, repopulates the filter and renders
      the new quote when the selection shows it. */
    method AddQuote(rawText: string, rawCategory: string, freshId: string, now: int) returns (r: AddCheck)
      modifies this
      ensures r == CheckNew(old(quotes), rawText, rawCategory)
      ensures r.Reject? ==>
        quotes == old(quotes) && shown == old(shown) && options == old(options)
        && selection == old(selection) && savedQuotes == old(savedQuotes)
        && savedFilter == old(savedFilter) && lastViewed == old(lastViewed)
      ensures r.Accept? ==> quotes == old(quotes) + [LocalQuote(freshId, r.text, r.category, now)]
      ensures r.Accept? ==> Persisted() && savedFilter == old(savedFilter)
      ensures r.Accept? ==> options == Options(quotes) && selection == EffectiveSelection(quotes, savedFilter)
      ensures r.Accept? ==>
        if Shows(selection, r.category)
        then shown == Some(quotes[|quotes| - 1]) && lastViewed == Some(freshId)
        else shown == old(shown) && lastViewed == old(lastViewed)
      ensures r.Accept? && IdUnused(old(quotes), freshId) ==>
        FindIndex(quotes, freshId) == Some(|old(quotes)|) && (old(DistinctIds(quotes)) ==> DistinctIds(quotes))
    {
      r := CheckNew(quotes, rawText, rawCategory);
      if r.Reject? {
        return;
      }
      var q := LocalQuote(freshId, r.text, r.category, now);
      PushQuote(q);
      RefreshAfterAdd(q);
    }

    /** The `forEach` of `syncWithServer` over the server records: an
      unknown id is appended and counted as added, a known id whose first
      record differs in text or category is overwritten there with the
      stamped server record and counted as updated. */
    method MergeBatch(batch: seq<Quote>, now: int) returns (added: nat, updated: nat)
      modifies this
      ensures MergeResult(quotes, added, updated) == Merge(old(quotes), batch, now)
      ensures shown == old(shown) && options == old(options) && selection == old(selection)
      ensures savedQuotes == old(savedQuotes) && savedFilter == old(savedFilter) && lastViewed == old(lastViewed)
    {
      added, updated := 0, 0;
      var i := 0;
      assert batch[..0] == [];
      while i < |batch|
        invariant 0 <= i <= |batch|
        invariant MergeResult(quotes, added, updated) == Merge(old(quotes), batch[..i], now)
        invariant shown == old(shown) && options == old(options) && selection == old(selection)
        invariant savedQuotes == old(savedQuotes) && savedFilter == old(savedFilter)
        invariant lastViewed == old(lastViewed)
      {
        var sq := batch[i];
        assert batch[..i + 1] == batch[..i] + [sq];
        MergeStep(old(quotes), batch[..i], sq, now);
        match FindIndex(quotes, sq.id) {
          case None =>
            quotes := quotes + [sq];
            added := added + 1;
          case Some(idx) =>
            if quotes[idx].text != sq.text || quotes[idx].category != sq.category {
              quotes := quotes[idx := sq.(updatedAt := now)];
              updated := updated + 1;
            }
        }
        i := i + 1;
      }
      assert batch[..|batch|] == batch;
    }

    /** `syncWithServer()` given the decoded posts (`None` when the fetch or
      the decoding failed) and the time. The `forEach` merges the server
      records in order; the list is persisted and the filter repopulated
      only when a counter is non-zero. */
    method SyncWithServer(fetched: Option<seq<Post>>, now: int) returns (outcome: SyncOutcome)
      modifies this
      ensures fetched.None? ==>
        outcome == SyncFailed && quotes == old(quotes)
        && savedQuotes == old(savedQuotes) && options == old(options) && selection == old(selection)
      ensures fetched.Some? ==>
        var m := Merge(old(quotes), ServerQuotes(fetched.value, now), now);
        outcome == Synced(m.added, m.updated) && quotes == m.store
      ensures fetched.Some? && outcome.Synced? && outcome.added + outcome.updated > 0 ==>
        Persisted() && options == Options(quotes) && selection == EffectiveSelection(quotes, savedFilter)
      ensures outcome.Synced? && outcome.added + outcome.updated == 0 ==>
        quotes == old(quotes) && savedQuotes == old(savedQuotes)
        && options == old(options) && selection == old(selection)
      ensures old(Persisted()) ==> Persisted()
      ensures old(DistinctIds(quotes)) && fetched.Some?
        && (forall i, j :: 0 <= i < j < |fetched.value| ==> fetched.value[i].id != fetched.value[j].id)
        ==> DistinctIds(quotes)
      ensures shown == old(shown) && savedFilter == old(savedFilter) && lastViewed == old(lastViewed)
    {
      if fetched.None? {
        return SyncFailed;
      }
      var batch := ServerQuotes(fetched.value, now);
      var added, updated := MergeBatch(batch, now);
      MergeBookkeeping(old(quotes), batch, now);
      if DistinctIds(old(quotes)) && forall i, j :: 0 <= i < j < |fetched.value| ==> fetched.value[i].id != fetched.value[j].id {
        ServerIdsDistinct(fetched.value, now);
        MergeKeepsDistinctIds(old(quotes), batch, now);
      }
      if added + updated > 0 {
        PersistQuotes();
        PopulateCategories();
      }
      outcome := Synced(added, updated);
    }

    /** `importFromJsonFile` as the code behaves: the parsed array is pushed
      once, then the call to the undefined `saveQuotes` throws, so the list
      is neither persisted nor pushed a second time and the filter is not
      repopulated. `None` is a file that does not parse or whose value
      cannot be spread. */
    method ImportFromJsonFile(parsed: Option<seq<Quote>>)
      modifies this
      ensures parsed.Some? ==> quotes == old(quotes) + parsed.value
      ensures parsed.None? ==> quotes == old(quotes)
      ensures old(Persisted()) && parsed.Some? && parsed.value != [] ==> !Persisted()
      ensures shown == old(shown) && options == old(options) && selection == old(selection)
      ensures savedQuotes == old(savedQuotes) && savedFilter == old(savedFilter) && lastViewed == old(lastViewed)
    {
      if parsed.Some? {
        quotes := quotes + parsed.value;
      }
    }

    /** `clearStorage()`: removes the three keys, reseeds the list, resets
      the filter to "all" and shows one of the seed quotes. */
    method ClearStorage(seedIds: seq<string>, now: int, choice: nat)
      requires |seedIds| == 5
      modifies this
      ensures quotes == Seed(seedIds, now) && Persisted()
      ensures savedFilter == None && selection == "all" && options == Options(quotes)
      ensures shown == Some(quotes[choice % 5]) && lastViewed == Some(seedIds[choice % 5])
    {
      savedQuotes := Absent;
      savedFilter := None;
      lastViewed := None;
      LoadQuotes(seedIds, now);
      ghost var seed := quotes;
      assert seed == Seed(seedIds, now) && |seed| == 5;
      assert seed[choice % 5].id == seedIds[choice % 5];
      PopulateCategories();
      assert selection == "all";
      ShowRandomQuote(choice);
      assert shown == Some(seed[choice % 5]);
    }

    /** `init()`: load, populate, then render the last viewed quote when its
      id is still in the list, else a random quote of the view. */
    method Init(seedIds: seq<string>, now: int, choice: nat)
      requires |seedIds| == 5
      modifies this
      ensures old(savedQuotes).Holds? ==> quotes == old(savedQuotes).items
      ensures !old(savedQuotes).Holds? ==> quotes == Seed(seedIds, now)
      ensures Persisted() && savedFilter == old(savedFilter)
      ensures options == Options(quotes) && selection == EffectiveSelection(quotes, savedFilter)
      ensures old(lastViewed).Some? && FindIndex(quotes, old(lastViewed).value).Some? ==>
        shown == Some(quotes[FindIndex(quotes, old(lastViewed).value).value])
      ensures old(lastViewed).None? || FindIndex(quotes, old(lastViewed).value).None? ==>
        var view := CurrentFilteredQuotes();
        if view == [] then shown == None else shown == Some(view[choice % |view|])
      ensures shown.Some? ==> lastViewed == Some(shown.value.id)
      ensures shown.None? ==> lastViewed == old(lastViewed)
    {
      LoadQuotes(seedIds, now);
      PopulateCategories();
      match lastViewed {
        case Some(id) =>
          match FindIndex(quotes, id) {
            case Some(i) => RenderQuote(quotes[i]);
            case None => ShowRandomQuote(choice);
          }
        case None =>
          ShowRandomQuote(choice);
      }
    }
  }
}
