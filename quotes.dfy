/** The quote record of the generator page (dom-manipulation/script.js) and
    the pure functions it derives from its quote list. */
module Quotes {
  import opened Wrappers
  import opened Storage
  import opened Text
  import opened Views

  /** Where a quote came from: written on this page or merged from the server. */
  datatype Source = Local | Server

  /** `{id, text, category, updatedAt, source}`. */
  datatype Quote = Quote(id: string, text: string, category: string, updatedAt: int, source: Source)

  function QuoteCategory(q: Quote): string {
    q.category
  }

  /** No two records of the list share an id. */
  predicate DistinctIds(qs: seq<Quote>) {
    forall i, j :: 0 <= i < j < |qs| ==> qs[i].id != qs[j].id
  }

  /** `qs.findIndex(q => q.id === id)`, with `None` for -1: the first
      position holding `id`. */
  function FindIndex(qs: seq<Quote>, id: string): (r: Option<nat>)
    ensures r.Some? ==> r.value < |qs| && qs[r.value].id == id
    ensures r.Some? ==> forall j :: 0 <= j < r.value ==> qs[j].id != id
    ensures r.None? ==> forall j :: 0 <= j < |qs| ==> qs[j].id != id
    decreases |qs|
  {
    if qs == [] then None
    else if qs[0].id == id then Some(0)
    else match FindIndex(qs[1..], id)
      case None => None
      case Some(i) => Some(i + 1)
  }

  /** No record of the list has this id. */
  predicate IdUnused(qs: seq<Quote>, id: string) {
    forall i :: 0 <= i < |qs| ==> qs[i].id != id
  }

  /** Appending a record whose id the list lacks: it is found by that id
      at the new last position, and ids stay distinct. */
  lemma AppendFreshId(qs: seq<Quote>, q: Quote)
    ensures IdUnused(qs, q.id) ==> FindIndex(qs + [q], q.id) == Some(|qs|)
    ensures IdUnused(qs, q.id) && DistinctIds(qs) ==> DistinctIds(qs + [q])
  {
    if IdUnused(qs, q.id) {
      FindIndexIs(qs + [q], q.id, |qs|);
    }
  }

  /** The first position holding an id is fixed by the ids up to it. */
  lemma FindIndexIs(qs: seq<Quote>, id: string, i: nat)
    requires i < |qs| && qs[i].id == id
    requires forall j :: 0 <= j < i ==> qs[j].id != id
    ensures FindIndex(qs, id) == Some(i)
  {
  }

  // ---------- Category index ----------

  /** `quotes.map(q => q.category.trim())`. */
  function Labels(qs: seq<Quote>): (ls: seq<string>)
    ensures |ls| == |qs|
    ensures forall i :: 0 <= i < |qs| ==> ls[i] == Trim(qs[i].category)
  {
    seq(|qs|, i requires 0 <= i < |qs| => Trim(qs[i].category))
  }

  /** The trimmed, non-empty category labels of a list. */
  ghost function CategorySet(qs: seq<Quote>): set<string> {
    set c | c in Labels(qs) && c != ""
  }

  /** `uniqueCategories()`: the distinct trimmed non-empty categories of the
      store, sorted. A label is listed exactly when some quote carries it. */
  function UniqueCategories(qs: seq<Quote>): (cats: seq<string>)
    ensures SortedStrictly(cats) && NoDuplicates(cats)
    ensures forall c :: c in cats ==> c != "" && Trim(c) == c
    ensures forall c :: c in cats <==> c in CategorySet(qs)
  {
    var ls := Labels(qs);
    var cats := Sort(Distinct(NonEmpty(ls)));
    forall i, j | 0 <= i < j < |cats| ensures cats[i] != cats[j] {
      LexIrreflexive(cats[i]);
    }
    forall c | c in cats ensures Trim(c) == c {
      var k :| 0 <= k < |ls| && ls[k] == c;
      TrimIdempotent(qs[k].category);
    }
    cats
  }

  /** The category list depends only on the set of labels the quotes carry,
      not on their order or multiplicity. */
  lemma UniqueCategoriesCanonical(qs1: seq<Quote>, qs2: seq<Quote>)
    requires CategorySet(qs1) == CategorySet(qs2)
    ensures UniqueCategories(qs1) == UniqueCategories(qs2)
  {
    SortedUnique(UniqueCategories(qs1), UniqueCategories(qs2));
  }

  /** Adding a quote adds its trimmed category to the list, if non-empty, and
      nothing else. */
  lemma UniqueCategoriesAppend(qs: seq<Quote>, q: Quote)
    ensures forall c :: c in UniqueCategories(qs + [q]) <==>
      c in UniqueCategories(qs) || (c == Trim(q.category) && c != "")
  {
    var before, after := UniqueCategories(qs), UniqueCategories(qs + [q]);
    forall c ensures c in after <==> c in before || (c == Trim(q.category) && c != "") {
      CategorySetAppend(qs, q, c);
    }
  }

  /** Adding a quote whose category is blank or already listed leaves the
      category list as it was. */
  lemma UniqueCategoriesAppendKnown(qs: seq<Quote>, q: Quote)
    requires Trim(q.category) == "" || Trim(q.category) in UniqueCategories(qs)
    ensures UniqueCategories(qs + [q]) == UniqueCategories(qs)
  {
    var t := Trim(q.category);
    assert t != "" ==> t in CategorySet(qs);
    forall c ensures c in CategorySet(qs + [q]) <==> c in CategorySet(qs) {
      CategorySetAppend(qs, q, c);
    }
    assert CategorySet(qs + [q]) == CategorySet(qs);
    UniqueCategoriesCanonical(qs + [q], qs);
  }

  lemma CategorySetAppend(qs: seq<Quote>, q: Quote, c: string)
    ensures c in CategorySet(qs + [q]) <==> c in CategorySet(qs) || (c == Trim(q.category) && c != "")
  {
    assert Labels(qs + [q]) == Labels(qs) + [Trim(q.category)];
  }

  // ---------- Filter state ----------

  /** The values of the category `<select>`: the "all" option, then the
      categories. */
  function Options(qs: seq<Quote>): seq<string> {
    ["all"] + UniqueCategories(qs)
  }

  lemma OptionsHas(qs: seq<Quote>, c: string)
    ensures c in Options(qs) <==> c == "all" || c in UniqueCategories(qs)
  {
  }

  /** The selection `populateCategories` restores: the saved filter when it
      is one of the options, "all" otherwise. The saved value itself is not
      rewritten. */
  function EffectiveSelection(qs: seq<Quote>, saved: Option<string>): (sel: string)
    ensures sel in Options(qs)
    ensures sel != "all" ==> saved == Some(sel) && sel in UniqueCategories(qs)
    ensures saved.Some? && saved.value in Options(qs) ==> sel == saved.value
    ensures saved.None? ==> sel == "all"
  {
    var last := SavedFilterOrAll(saved);
    OptionsHas(qs, last);
    OptionsHas(qs, "all");
    if saved.Some? then
      OptionsHas(qs, saved.value);
      assert saved.value == "" ==> saved.value !in UniqueCategories(qs);
      if last in Options(qs) then last else "all"
    else
      "all"
  }

  /** Whether the selection `sel` shows quotes of `category`. */
  predicate Shows(sel: string, category: string) {
    sel == "all" || sel == category
  }

  /** `currentFilteredQuotes()` for a given selection. */
  function FilteredQuotes(qs: seq<Quote>, sel: string): (view: seq<Quote>)
    ensures sel == "all" ==> view == qs
    ensures sel != "all" ==> forall q :: q in view <==> q in qs && q.category == sel
    ensures |view| <= |qs|
  {
    Filtered(qs, QuoteCategory, sel)
  }

  /** Adding a quote never unsets a category selection: the categories only
      grow. When the saved filter names the added quote's category, the
      restored selection is that category. */
  lemma SelectionAfterAdd(qs: seq<Quote>, q: Quote, saved: Option<string>)
    ensures EffectiveSelection(qs, saved) != "all" ==>
      EffectiveSelection(qs + [q], saved) == EffectiveSelection(qs, saved)
    ensures saved == Some(Trim(q.category)) && Trim(q.category) != "" ==>
      EffectiveSelection(qs + [q], saved) == Trim(q.category)
  {
    UniqueCategoriesAppend(qs, q);
  }

  /** When every stored category is already trimmed (as `addQuote`, the seed
      and the server records make them), each category offered in the
      filter selects at least one quote. */
  lemma CategoriesSelectable(qs: seq<Quote>)
    requires forall i :: 0 <= i < |qs| ==> Trim(qs[i].category) == qs[i].category
    ensures forall c :: c in UniqueCategories(qs) ==> FilteredQuotes(qs, c) != []
  {
    forall c | c in UniqueCategories(qs) ensures FilteredQuotes(qs, c) != [] {
      CategorySelectable(qs, c);
    }
  }

  lemma CategorySelectable(qs: seq<Quote>, c: string)
    requires forall i :: 0 <= i < |qs| ==> Trim(qs[i].category) == qs[i].category
    requires c in UniqueCategories(qs)
    ensures FilteredQuotes(qs, c) != []
  {
    assert c in CategorySet(qs);
    var ls := Labels(qs);
    assert c in ls;
    var k :| 0 <= k < |ls| && ls[k] == c;
    var q := qs[k];
    assert ls[k] == Trim(q.category);
    assert Trim(q.category) == q.category;
    ViewHasMatch(qs, c, q);
  }

  /** A quote of the selected category is in the view. */
  lemma ViewHasMatch(qs: seq<Quote>, c: string, q: Quote)
    requires q in qs && q.category == c
    ensures q in FilteredQuotes(qs, c)
  {
  }

  /** The options list trimmed categories but the filter compares the stored
      category as is: a quote stored with a category that trimming changes
      (say " A", from an imported file) makes an option that selects
      nothing, unless another quote carries the trimmed category exactly. */
  lemma UntrimmedCategoryHidden(qs: seq<Quote>, q: Quote)
    requires q in qs
    requires Trim(q.category) != "" && Trim(q.category) != "all"
    requires forall x :: x in qs ==> x.category != Trim(q.category)
    ensures Trim(q.category) != q.category
    ensures Trim(q.category) in UniqueCategories(qs)
    ensures FilteredQuotes(qs, Trim(q.category)) == []
  {
    var t := Trim(q.category);
    var k :| 0 <= k < |qs| && qs[k] == q;
    assert Labels(qs)[k] == t;
    assert t in CategorySet(qs);
    assert forall x :: x in qs ==> QuoteCategory(x) != t;
  }

  // ---------- Adding a quote ----------

  /** Why `addQuote` refuses its input. */
  datatype AddError = EmptyText | Duplicate

  /** The outcome of `addQuote`'s checks: the trimmed fields to store, or
      the reason for refusing. */
  datatype AddCheck = Accept(text: string, category: string) | Reject(error: AddError)

  /** The stored category for a typed one: trimmed, "General" when blank. */
  function NewCategory(rawCategory: string): (c: string)
    ensures c != ""
    ensures Blank(rawCategory) ==> c == "General"
    ensures !Blank(rawCategory) ==> c == Trim(rawCategory)
  {
    var c := Trim(rawCategory);
    if c == "" then "General" else c
  }

  /** Some stored quote has this text and category up to case. */
  predicate IsDuplicate(qs: seq<Quote>, text: string, category: string) {
    exists i :: 0 <= i < |qs| && SameFold(qs[i].text, text) && SameFold(qs[i].category, category)
  }

  /** The checks `addQuote` makes before it appends: blank text is refused,
      then a quote equal in text and category up to case. */
  function CheckNew(qs: seq<Quote>, rawText: string, rawCategory: string): AddCheck {
    var text := Trim(rawText);
    var category := NewCategory(rawCategory);
    if text == "" then Reject(EmptyText)
    else if IsDuplicate(qs, text, category) then Reject(Duplicate)
    else Accept(text, category)
  }

  /** What `CheckNew` decides: blank text is refused; otherwise a quote that
      matches a stored one in text and category up to case is refused as a
      duplicate; otherwise the trimmed text and the normalised category
      are accepted. */
  lemma CheckNewOutcome(qs: seq<Quote>, rawText: string, rawCategory: string)
    ensures var r := CheckNew(qs, rawText, rawCategory);
      && (r == Reject(EmptyText) <==> Blank(rawText))
      && (r == Reject(Duplicate) <==> !Blank(rawText) && IsDuplicate(qs, Trim(rawText), NewCategory(rawCategory)))
      && (r.Accept? <==> !Blank(rawText) && !IsDuplicate(qs, Trim(rawText), NewCategory(rawCategory)))
      && (r.Accept? ==> r.text == Trim(rawText) && r.text != "" && r.category == NewCategory(rawCategory))
  {
  }

  /** The record `addQuote` appends for accepted fields. */
  function LocalQuote(id: string, text: string, category: string, now: int): Quote {
    Quote(id, text, category, now, Local)
  }

  /** Adding the same text and category again is refused as a duplicate,
      whatever case the second attempt uses. */
  lemma {:induction false} AddTwiceRejected(qs: seq<Quote>, rawText: string, rawCategory: string,
                                            again: string, againCategory: string, id: string, now: int)
    requires CheckNew(qs, rawText, rawCategory).Accept?
    requires SameFold(Trim(again), Trim(rawText))
    requires SameFold(NewCategory(againCategory), NewCategory(rawCategory))
    ensures var r := CheckNew(qs, rawText, rawCategory);
      CheckNew(qs + [LocalQuote(id, r.text, r.category, now)], again, againCategory) == Reject(Duplicate)
  {
    var r := CheckNew(qs, rawText, rawCategory);
    CheckNewOutcome(qs, rawText, rawCategory);
    CheckNewOutcome(qs + [LocalQuote(id, r.text, r.category, now)], again, againCategory);
    var s := qs + [LocalQuote(id, r.text, r.category, now)];
    assert |Trim(again)| == |Fold(Trim(again))| == |Fold(r.text)| > 0;
    assert SameFold(s[|qs|].text, Trim(again));
    assert SameFold(s[|qs|].category, NewCategory(againCategory));
  }

  // ---------- Seeding ----------

  /** The texts and categories of the five default quotes. */
  const SeedTexts: seq<string> := [
    "The only way to do great work is to love what you do.",
    "Simplicity is the soul of efficiency.",
    "Whether you think you can, or you think you can’t—you’re right.",
    "Talk is cheap. Show me the code.",
    "Small steps every day add up to big results."]
  const SeedCategories: seq<string> := ["Inspiration", "Programming", "Mindset", "Programming", "Inspiration"]

  /** The five default quotes `loadQuotes` seeds an empty store with; `ids`
      are the five `uid()` values and `now` the `Date.now()` of the load. */
  function Seed(ids: seq<string>, now: int): (qs: seq<Quote>)
    requires |ids| == 5
    ensures |qs| == 5
    ensures forall i :: 0 <= i < 5 ==> qs[i] == Quote(ids[i], SeedTexts[i], SeedCategories[i], now, Local)
  {
    seq(5, i requires 0 <= i < 5 => Quote(ids[i], SeedTexts[i], SeedCategories[i], now, Local))
  }

  // ---------- Server records ----------

  /** A post of the placeholder API; `id` is the post id as it renders in a
      template string, a missing title or body is "". */
  datatype Post = Post(id: string, title: string, body: string)

  /** The record `syncWithServer` makes of a post: id "server-" + post id,
      category "Server", text the trimmed title (or body when the title is
      empty), or "Post #" + id when that is blank. */
  function ServerQuote(p: Post, now: int): (q: Quote)
    ensures q.id == "server-" + p.id && q.category == "Server"
    ensures q.source == Server && q.updatedAt == now
    ensures q.text != ""
    ensures p.title != "" && !Blank(p.title) ==> q.text == Trim(p.title)
    ensures p.title == "" && !Blank(p.body) ==> q.text == Trim(p.body)
    ensures Blank(if p.title != "" then p.title else p.body) ==> q.text == "Post #" + p.id
  {
    var t := Trim(if p.title != "" then p.title else p.body);
    Quote("server-" + p.id, if t == "" then "Post #" + p.id else t, "Server", now, Server)
  }

  /** `posts.map(...)` into server records. */
  function ServerQuotes(posts: seq<Post>, now: int): (batch: seq<Quote>)
    ensures |batch| == |posts|
    ensures forall i :: 0 <= i < |posts| ==> batch[i] == ServerQuote(posts[i], now)
  {
    seq(|posts|, i requires 0 <= i < |posts| => ServerQuote(posts[i], now))
  }

  /** Posts with distinct ids give records with distinct ids. */
  lemma ServerIdsDistinct(posts: seq<Post>, now: int)
    requires forall i, j :: 0 <= i < j < |posts| ==> posts[i].id != posts[j].id
    ensures DistinctIds(ServerQuotes(posts, now))
  {
    var batch := ServerQuotes(posts, now);
    var prefix := "server-";
    forall i, j | 0 <= i < j < |batch| ensures batch[i].id != batch[j].id {
      assert (prefix + posts[i].id)[|prefix|..] == posts[i].id;
      assert (prefix + posts[j].id)[|prefix|..] == posts[j].id;
    }
  }
}
