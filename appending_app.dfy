/** The page state of script.js and its handlers: a list of `{text,
    category}` records that imports append to and the server sync extends
    by text. Each handler runs to completion before the next one starts. */
module AppendingApp {
  import opened Wrappers
  import opened Storage
  import opened Cards

  /** The list the page starts with when nothing is stored. */
  const DefaultTexts: seq<string> := [
    "The only limit to our realization of tomorrow is our doubts of today.",
    "In the middle of every difficulty lies opportunity.",
    "Life is really simple, but we insist on making it complicated."]
  const DefaultCategories: seq<string> := ["Motivation", "Inspiration", "Philosophy"]
  const Defaults: seq<Card> := FromColumns(DefaultTexts, DefaultCategories)

  /** The records `syncWithServer` offers after a successful fetch. */
  const ServerBatch: seq<Card> := [Card("Server says hello!", "Server")]

  class Page {
    /** The global `quotes` array. */
    var quotes: seq<Card>
    /** The global `lastFilter`, the category the random pick draws from. */
    var lastFilter: string
    /** The option values of the category filter, "all" first. */
    var options: seq<string>
    /** The record on display. */
    var shown: Option<Card>
    /** `localStorage["quotes"]`. */
    var savedQuotes: Slot<Card>
    /** `localStorage["lastFilter"]`. */
    var savedFilter: Option<string>
    /** `sessionStorage["lastViewedQuote"]`. */
    var lastViewed: Option<Card>

    /** The stored list is the one in memory. */
    ghost predicate Persisted()
      reads this
    {
      savedQuotes == Holds(quotes)
    }

    /** The records the current filter draws from. */
    function View(): (view: seq<Card>)
      reads this
      ensures lastFilter == "all" ==> view == quotes
      ensures lastFilter != "all" ==> forall c :: c in view <==> c in quotes && c.category == lastFilter
    {
      FilteredCards(quotes, lastFilter)
    }

    /** Loading the script: the stored list or the defaults (the defaults
      are not written back), the saved filter or "all", the options, a
      random pick, and then the last viewed record of the session on
      display. A stored value that is not a JSON array is outside the
      model (the script throws or keeps a non-array). */
    constructor (saved: Slot<Card>, filter: Option<string>, viewed: Option<Card>, choice: nat)
      requires !saved.Unreadable?
      ensures quotes == (if saved.Holds? then saved.items else Defaults)
      ensures savedQuotes == saved && savedFilter == filter
      ensures lastFilter == SavedFilterOrAll(filter)
      ensures options == ["all"] + Categories(quotes)
      ensures var view := FilteredCards(quotes, lastFilter);
        lastViewed == (if view == [] then viewed else Some(view[choice % |view|]))
      ensures shown == lastViewed
    {
      quotes := if saved.Holds? then saved.items else Defaults;
      lastFilter := SavedFilterOrAll(filter);
      options := [];
      shown := None;
      savedQuotes := saved;
      savedFilter := filter;
      lastViewed := viewed;
      new;
      PopulateCategories();
      ghost var view := View();
      ShowRandomQuote(choice);
      assert lastViewed == (if view == [] then viewed else Some(view[choice % |view|]));
      if lastViewed.Some? {
        shown := lastViewed;
      }
    }

    /** `saveQuotes()`. */
    method SaveQuotes()
      modifies this
      ensures Persisted()
      ensures quotes == old(quotes) && lastFilter == old(lastFilter) && options == old(options)
      ensures shown == old(shown) && savedFilter == old(savedFilter) && lastViewed == old(lastViewed)
    {
      savedQuotes := Holds(quotes);
    }

    /** `populateCategories()`: "all", then each category once, in order of
      first occurrence. */
    method PopulateCategories()
      modifies this
      ensures options == ["all"] + Categories(quotes)
      ensures quotes == old(quotes) && lastFilter == old(lastFilter) && shown == old(shown)
      ensures savedQuotes == old(savedQuotes) && savedFilter == old(savedFilter) && lastViewed == old(lastViewed)
    {
      options := ["all"] + Categories(quotes);
    }

    /** `showRandomQuote()` with the random index given as `choice`: an
      empty view only notifies; otherwise a record of the view is shown and
      kept as last viewed. */
    method ShowRandomQuote(choice: nat)
      modifies this
      ensures var view := old(View());
        if view == [] then shown == old(shown) && lastViewed == old(lastViewed)
        else shown == Some(view[choice % |view|]) && lastViewed == shown
      ensures shown != old(shown) ==> shown.value in quotes && (lastFilter == "all" || shown.value.category == lastFilter)
      ensures quotes == old(quotes) && lastFilter == old(lastFilter) && options == old(options)
      ensures savedQuotes == old(savedQuotes) && savedFilter == old(savedFilter)
    {
      var view := View();
      if |view| != 0 {
        var pick := view[choice % |view|];
        assert pick in view;
        shown := Some(pick);
        lastViewed := Some(pick);
      }
    }

    /** `addQuote()`: both trimmed fields must be non-empty; then exactly
      that record is appended (no duplicate check), saved, and the options
      rebuilt. Otherwise nothing changes. */
    method AddQuote(rawText: string, rawCategory: string) returns (added: Option<Card>)
      modifies this
      ensures added == NewCard(rawText, rawCategory)
      ensures added.None? ==>
        quotes == old(quotes) && savedQuotes == old(savedQuotes) && options == old(options)
      ensures added.Some? ==> quotes == old(quotes) + [added.value] && Persisted()
      ensures added.Some? ==> options == ["all"] + Categories(quotes)
      ensures lastFilter == old(lastFilter) && shown == old(shown)
      ensures savedFilter == old(savedFilter) && lastViewed == old(lastViewed)
    {
      added := NewCard(rawText, rawCategory);
      if added.Some? {
        quotes := quotes + [added.value];
        SaveQuotes();
        PopulateCategories();
      }
    }

    /** `filterQuotes()` after the user picked `sel`: the filter is set and
      saved, then a record of the new view is shown. */
    method FilterQuotes(sel: string, choice: nat)
      requires sel in options
      modifies this
      ensures lastFilter == sel && savedFilter == Some(sel)
      ensures var view := FilteredCards(quotes, sel);
        if view == [] then shown == old(shown) && lastViewed == old(lastViewed)
        else shown == Some(view[choice % |view|]) && lastViewed == shown
      ensures quotes == old(quotes) && options == old(options) && savedQuotes == old(savedQuotes)
    {
      lastFilter := sel;
      savedFilter := Some(sel);
      ShowRandomQuote(choice);
    }

    /** `importFromJsonFile`: a parsed array (`Some`) is appended in order
      after the existing records, saved, and the options rebuilt; a file
      that does not parse or is not an array (`None`) changes nothing. */
    method ImportFromJsonFile(parsed: Option<seq<Card>>)
      modifies this
      ensures parsed.None? ==>
        quotes == old(quotes) && savedQuotes == old(savedQuotes) && options == old(options)
      ensures parsed.Some? ==> quotes == old(quotes) + parsed.value && Persisted()
      ensures parsed.Some? ==> options == ["all"] + Categories(quotes)
      ensures lastFilter == old(lastFilter) && shown == old(shown)
      ensures savedFilter == old(savedFilter) && lastViewed == old(lastViewed)
    {
      if parsed.Some? {
        quotes := quotes + parsed.value;
        SaveQuotes();
        PopulateCategories();
      }
    }

    /** `syncWithServer()`, `fetched` telling whether the fetch and its
      decoding succeeded. On success each server record is appended unless
      its text is already present; existing records are never modified; the
      list is saved and the options rebuilt even when nothing was added. */
    method SyncWithServer(fetched: bool)
      modifies this
      ensures !fetched ==>
        quotes == old(quotes) && savedQuotes == old(savedQuotes) && options == old(options)
      ensures fetched ==> quotes == AppendMissing(old(quotes), ServerBatch) && Persisted()
      ensures fetched ==> options == ["all"] + Categories(quotes)
      ensures |old(quotes)| <= |quotes| && quotes[..|old(quotes)|] == old(quotes)
      ensures (forall b :: b in ServerBatch ==> HasText(old(quotes), b.text)) ==> quotes == old(quotes)
      ensures lastFilter == old(lastFilter) && shown == old(shown)
      ensures savedFilter == old(savedFilter) && lastViewed == old(lastViewed)
    {
      if !fetched {
        return;
      }
      var i := 0;
      assert ServerBatch[..0] == [];
      while i < |ServerBatch|
        invariant 0 <= i <= |ServerBatch|
        invariant quotes == AppendMissing(old(quotes), ServerBatch[..i])
        invariant lastFilter == old(lastFilter) && shown == old(shown) && options == old(options)
        invariant savedQuotes == old(savedQuotes) && savedFilter == old(savedFilter)
        invariant lastViewed == old(lastViewed)
      {
        var sq := ServerBatch[i];
        assert ServerBatch[..i + 1][..i] == ServerBatch[..i];
        if !HasText(quotes, sq.text) {
          quotes := quotes + [sq];
        }
        i := i + 1;
      }
      assert ServerBatch[..i] == ServerBatch;
      AppendMissingKeepsPrefix(old(quotes), ServerBatch);
      if forall b :: b in ServerBatch ==> HasText(old(quotes), b.text) {
        AppendMissingCovered(old(quotes), ServerBatch);
      }
      SaveQuotes();
      PopulateCategories();
    }
  }
}
