/** The browser's Web Storage, as seen by the quote pages. */
module Storage {
  import opened Wrappers

  /** What `localStorage.getItem(key)` holds for the key under which a page
      keeps its quote list. `JSON.stringify`/`JSON.parse` are taken to be a
      lossless round trip, so a list written by the page reads back as
      `Holds` of the same list. `Absent` is a missing key or the empty
      string (both falsy); `Unreadable` is a non-empty value that is not
      JSON or not an array. */
  datatype Slot<T> = Absent | Unreadable | Holds(items: seq<T>)

  /** `localStorage.getItem(key) || "all"`: a missing or empty saved filter
      means "all categories". */
  function SavedFilterOrAll(saved: Option<string>): (sel: string)
    ensures sel != ""
    ensures saved.Some? && saved.value != "" ==> sel == saved.value
    ensures saved.None? || saved.value == "" ==> sel == "all"
  {
    match saved
    case Some(s) => if s != "" then s else "all"
    case None => "all"
  }
}
