/**
 * The data file as the program sees it after loading: a JSON object from
 * item name to a record with its update dates ("stats"), "complete" and
 * "hiatus".  Object order is kept, since the todo list's ties follow it.
 */
module Dataset {

  datatype Item = Item(stats: seq<string>, complete: bool, hiatus: bool)

  datatype Entry = Entry(name: string, item: Item)

  /** The failures the two reports can end in (each an uncaught exception in the program). */
  datatype Error =
    | MalformedDate(name: string, text: string)  // int() or date() raising ValueError in getdate
    | EmptyHistory(name: string)                 // i[-1] on an item with no dates: IndexError
    | NoEntries                                  // next() on an empty zip, or max() of nothing

  /** The loaded dict holds each name once. */
  predicate DistinctNames(data: seq<Entry>) {
    forall i, j :: 0 <= i < j < |data| ==> data[i].name != data[j].name
  }
}
