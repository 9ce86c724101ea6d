/** The `{text, category}` record shared by script.js and scripts.js and
    the pure functions both pages derive from their lists. */
module Cards {
  import opened Wrappers
  import opened Text
  import opened Views

  /** `{ text, category }`. */
  datatype Card = Card(text: string, category: string)

  function CardCategory(c: Card): string {
    c.category
  }

  /** The records whose texts and categories are given column by column. */
  function FromColumns(texts: seq<string>, categories: seq<string>): (cards: seq<Card>)
    requires |texts| == |categories|
    ensures |cards| == |texts|
    ensures forall i :: 0 <= i < |cards| ==> cards[i] == Card(texts[i], categories[i])
  {
    seq(|texts|, i requires 0 <= i < |texts| => Card(texts[i], categories[i]))
  }

  /** The record `addQuote` builds from the typed fields: both are trimmed
      and both must be non-empty. */
  function NewCard(rawText: string, rawCategory: string): (r: Option<Card>)
    ensures r.Some? <==> !Blank(rawText) && !Blank(rawCategory)
    ensures r.Some? ==> r.value == Card(Trim(rawText), Trim(rawCategory))
    ensures r.Some? ==> r.value.text != "" && r.value.category != ""
  {
    var text := Trim(rawText);
    var category := Trim(rawCategory);
    if text != "" && category != "" then Some(Card(text, category)) else None
  }

  /** `quotes.map(q => q.category)`. */
  function CategoryColumn(cards: seq<Card>): (cs: seq<string>)
    ensures |cs| == |cards|
    ensures forall i :: 0 <= i < |cards| ==> cs[i] == cards[i].category
  {
    seq(|cards|, i requires 0 <= i < |cards| => cards[i].category)
  }

  /** `[...new Set(quotes.map(q => q.category))]`: every category once. */
  function Categories(cards: seq<Card>): (cats: seq<string>)
    ensures NoDuplicates(cats)
    ensures forall c :: c in cats ==> exists i :: 0 <= i < |cards| && cards[i].category == c
    ensures forall i :: 0 <= i < |cards| ==> cards[i].category in cats
  {
    var cs := CategoryColumn(cards);
    assert forall i :: 0 <= i < |cards| ==> cs[i] in cs;
    Distinct(cs)
  }

  /** The categories come in the order in which each first occurs in the
      list. */
  lemma CategoriesInFirstOccurrenceOrder(cards: seq<Card>)
    ensures var cs := CategoryColumn(cards); var cats := Categories(cards);
      forall i, j :: 0 <= i < j < |cats| ==> FirstIndex(cs, cats[i]) < FirstIndex(cs, cats[j])
  {
    DistinctFirstOccurrenceOrder(CategoryColumn(cards));
  }

  /** `quotes.filter(...)` for a selection, with "all" for the whole list. */
  function FilteredCards(cards: seq<Card>, sel: string): (view: seq<Card>)
    ensures sel == "all" ==> view == cards
    ensures sel != "all" ==> forall c :: c in view <==> c in cards && c.category == sel
    ensures |view| <= |cards|
  {
    Filtered(cards, CardCategory, sel)
  }

  /** Some stored record has exactly this text. */
  predicate HasText(cards: seq<Card>, text: string) {
    exists i :: 0 <= i < |cards| && cards[i].text == text
  }

  /** The `forEach` of script.js's `syncWithServer`: each record of the
      batch is appended, in order, unless a record with the same text is
      already in the list by then. */
  function AppendMissing(s: seq<Card>, batch: seq<Card>): (r: seq<Card>)
    decreases |batch|
  {
    if batch == [] then s
    else
      var r := AppendMissing(s, batch[..|batch| - 1]);
      var x := batch[|batch| - 1];
      if HasText(r, x.text) then r else r + [x]
  }

  /** The existing records are kept as they are, in front, and at most one
      record per batch entry is appended. */
  lemma {:induction false} AppendMissingKeepsPrefix(s: seq<Card>, batch: seq<Card>)
    ensures var r := AppendMissing(s, batch);
      |s| <= |r| <= |s| + |batch| && r[..|s|] == s
    decreases |batch|
  {
    if batch != [] {
      var p, x := batch[..|batch| - 1], batch[|batch| - 1];
      AppendMissingKeepsPrefix(s, p);
      var r := AppendMissing(s, p);
      assert (r + [x])[..|s|] == r[..|s|];
    }
  }

  /** Every appended record comes from the batch and carries a text that no
      record before it has. */
  lemma {:induction false} AppendMissingFresh(s: seq<Card>, batch: seq<Card>)
    ensures var r := AppendMissing(s, batch);
      forall k :: |s| <= k < |r| ==> r[k] in batch && !HasText(r[..k], r[k].text)
    decreases |batch|
  {
    if batch != [] {
      var p, x := batch[..|batch| - 1], batch[|batch| - 1];
      AppendMissingFresh(s, p);
      AppendMissingKeepsPrefix(s, p);
      var r := AppendMissing(s, p);
      assert forall b :: b in p ==> b in batch;
      assert x in batch;
      if !HasText(r, x.text) {
        var r' := r + [x];
        forall k | |s| <= k < |r'|
          ensures r'[k] in batch && !HasText(r'[..k], r'[k].text)
        {
          if k < |r| {
            assert r'[..k] == r[..k];
          } else {
            assert r'[..k] == r;
          }
        }
      }
    }
  }

  /** Afterwards every text of the batch is in the list. */
  lemma {:induction false} AppendMissingCovers(s: seq<Card>, batch: seq<Card>)
    ensures forall b :: b in batch ==> HasText(AppendMissing(s, batch), b.text)
    decreases |batch|
  {
    if batch != [] {
      var p, x := batch[..|batch| - 1], batch[|batch| - 1];
      AppendMissingCovers(s, p);
      var r := AppendMissing(s, p);
      assert batch == p + [x];
      if !HasText(r, x.text) {
        var r' := r + [x];
        forall b | b in batch ensures HasText(r', b.text) {
          if b != x {
            assert b in p;
            var i :| 0 <= i < |r| && r[i].text == b.text;
            assert r'[i] == r[i];
          } else {
            assert r'[|r|] == x;
          }
        }
      }
    }
  }

  /** A list that already has every text of the batch is left as it is. */
  lemma {:induction false} AppendMissingCovered(t: seq<Card>, batch: seq<Card>)
    requires forall b :: b in batch ==> HasText(t, b.text)
    ensures AppendMissing(t, batch) == t
    decreases |batch|
  {
    if batch != [] {
      var p := batch[..|batch| - 1];
      assert forall b :: b in p ==> b in batch;
      AppendMissingCovered(t, p);
      assert batch[|batch| - 1] in batch;
    }
  }

  /** Running the same batch again appends nothing. */
  lemma AppendMissingIdempotent(s: seq<Card>, batch: seq<Card>)
    ensures AppendMissing(AppendMissing(s, batch), batch) == AppendMissing(s, batch)
  {
    AppendMissingCovers(s, batch);
    AppendMissingCovered(AppendMissing(s, batch), batch);
  }
}
