/** The page state of scripts.js and its handlers: a list of `{text,
    category}` records that an import replaces, and a category filter that
    is reset to "all" whenever it is rebuilt. Each handler runs to
    completion before the next one starts. */
module ReplacingApp {
  import opened Wrappers
  import opened Storage
  import opened Cards

  /** The list the page starts with when nothing is stored. */
  const DefaultTexts: seq<string> := [
    "The best way to predict the future is to create it.",
    "Life is what happens when you're busy making other plans.",
    "Do one thing every day that scares you."]
  const DefaultCategories: seq<string> := ["Motivation", "Life", "Courage"]
  const Defaults: seq<Card> := FromColumns(DefaultTexts, DefaultCategories)

  class Page {
    /** The global `quotes` array. */
    var quotes: seq<Card>
    /** The option values of the category filter, "all" first. */
    var options: seq<string>
    /** The option the category filter currently has selected. */
    var selection: string
    /** The record on display; `None` is the "no quotes available" message. */
    var shown: Option<Card>
    /** `localStorage["quotes"]`. */
    var savedQuotes: Slot<Card>
    /** `sessionStorage["lastQuote"]`. */
    var lastQuote: Option<Card>

    /** The stored list is the one in memory. */
    ghost predicate Persisted()
      reads this
    {
      savedQuotes == Holds(quotes)
    }

    /** The filter's selection is one of its options. */
    ghost predicate SelectionOffered()
      reads this
    {
      selection in options
    }

    /** Loading the script and its `load` handler: the stored list or the
      defaults (the defaults are not written back), the dropdown rebuilt,
      and then the session's last record on display if there is one, a
      random pick otherwise. A stored value that is not a JSON array is
      outside the model (the script throws or keeps a non-array). */
    constructor (saved: Slot<Card>, viewed: Option<Card>, choice: nat)
      requires !saved.Unreadable?
      ensures quotes == (if saved.Holds? then saved.items else Defaults)
      ensures savedQuotes == saved
      ensures options == ["all"] + Categories(quotes) && selection == "all"
      ensures viewed.Some? ==> shown == viewed && lastQuote == viewed
      ensures viewed.None? && quotes == [] ==> shown == None && lastQuote == None
      ensures viewed.None? && quotes != [] ==>
        shown == Some(quotes[choice % |quotes|]) && lastQuote == shown
    {
      quotes := if saved.Holds? then saved.items else Defaults;
      options := [];
      selection := "all";
      shown := None;
      savedQuotes := saved;
      lastQuote := viewed;
      new;
      PopulateCategoryDropdown();
      if viewed.Some? {
        shown := viewed;
      } else {
        DisplayRandomQuote(choice);
      }
    }

    /** `populateCategoryDropdown()`: "all", then each category once, in
      order of first occurrence; rebuilding the options leaves "all"
      selected. */
    method PopulateCategoryDropdown()
      modifies this
      ensures options == ["all"] + Categories(quotes) && selection == "all"
      ensures SelectionOffered()
      ensures quotes == old(quotes) && shown == old(shown)
      ensures savedQuotes == old(savedQuotes) && lastQuote == old(lastQuote)
    {
      options := ["all"] + Categories(quotes);
      selection := "all";
    }

    /** `displayRandomQuote()` with the random index given as `choice`: a
      record of the selected category (or of the whole list for "all") is
      shown and kept in the session; an empty view shows the message and
      leaves the session alone. */
    method DisplayRandomQuote(choice: nat)
      modifies this
      ensures var view := FilteredCards(quotes, selection);
        if view == [] then shown == None && lastQuote == old(lastQuote)
        else shown == Some(view[choice % |view|]) && lastQuote == shown
      ensures shown.Some? ==> shown.value in quotes && (selection == "all" || shown.value.category == selection)
      ensures quotes == old(quotes) && options == old(options) && selection == old(selection)
      ensures savedQuotes == old(savedQuotes)
    {
      var view := FilteredCards(quotes, selection);
      if |view| == 0 {
        shown := None;
      } else {
        var pick := view[choice % |view|];
        assert pick in view;
        shown := Some(pick);
        lastQuote := Some(pick);
      }
    }

    /** `addQuote()`: both trimmed fields must be non-empty; then exactly
      that record is appended (no duplicate check), saved, the dropdown
      rebuilt and a record of the whole list shown. Otherwise nothing
      changes. */
    method AddQuote(rawText: string, rawCategory: string, choice: nat) returns (added: Option<Card>)
      modifies this
      ensures added == NewCard(rawText, rawCategory)
      ensures added.None? ==>
        quotes == old(quotes) && options == old(options) && selection == old(selection)
        && shown == old(shown) && savedQuotes == old(savedQuotes) && lastQuote == old(lastQuote)
      ensures added.Some? ==> quotes == old(quotes) + [added.value] && Persisted()
      ensures added.Some? ==> options == ["all"] + Categories(quotes) && selection == "all"
      ensures added.Some? ==> shown == Some(quotes[choice % |quotes|]) && lastQuote == shown
    {
      added := NewCard(rawText, rawCategory);
      if added.Some? {
        quotes := quotes + [added.value];
        savedQuotes := Holds(quotes);
        PopulateCategoryDropdown();
        DisplayRandomQuote(choice);
      }
    }

    /** `importFromJsonFile`: a parsed array (`Some`) replaces the list, is
      saved, the dropdown rebuilt and a record of it shown; no file, a file
      that does not parse or one that is not an array (`None`) changes
      nothing. */
    method ImportFromJsonFile(parsed: Option<seq<Card>>, choice: nat)
      modifies this
      ensures parsed.None? ==>
        quotes == old(quotes) && options == old(options) && selection == old(selection)
        && shown == old(shown) && savedQuotes == old(savedQuotes) && lastQuote == old(lastQuote)
      ensures parsed.Some? ==> quotes == parsed.value && Persisted()
      ensures parsed.Some? ==> options == ["all"] + Categories(quotes) && selection == "all"
      ensures parsed.Some? && quotes == [] ==> shown == None && lastQuote == old(lastQuote)
      ensures parsed.Some? && quotes != [] ==> shown == Some(quotes[choice % |quotes|]) && lastQuote == shown
    {
      if parsed.Some? {
        quotes := parsed.value;
        savedQuotes := Holds(quotes);
        PopulateCategoryDropdown();
        DisplayRandomQuote(choice);
      }
    }

    /** The filter's `change` event after the user picked `sel`: a record of
      the new view is shown. */
    method ChangeFilter(sel: string, choice: nat)
      requires sel in options
      modifies this
      ensures selection == sel && SelectionOffered()
      ensures var view := FilteredCards(quotes, sel);
        if view == [] then shown == None && lastQuote == old(lastQuote)
        else shown == Some(view[choice % |view|]) && lastQuote == shown
      ensures quotes == old(quotes) && options == old(options) && savedQuotes == old(savedQuotes)
    {
      selection := sel;
      DisplayRandomQuote(choice);
    }
  }
}
