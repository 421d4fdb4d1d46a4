/**
 * The posting records both components share: the feed parser writes them to its processed-tasks
 * store and the notifier reads the same store. A JSON object whose keys keep their insertion
 * order is a sequence of entries with distinct ids.
 */
module Postings {
  import opened Options

  /**
   * The fields the feed parser stores for one posting. `responsesCount` and `responsesInfo` are
   * transient: they are present right after a detail page was read and removed before saving.
   */
  datatype Posting = Posting(
    price: int,
    priceText: string,
    paymentType: string,
    description: string,
    title: string,
    url: string,
    postedTime: string,
    views: string,
    responses: string,
    fullDescription: string,
    publicationDate: string,
    processedAt: string,
    responsesCount: Option<int>,
    responsesInfo: Option<string>)

  /** One `id: posting` pair of the store, in iteration order. */
  datatype Entry = Entry(id: string, posting: Posting)

  function IdOf(e: Entry): string {
    e.id
  }

  predicate UniqueIds(s: seq<Entry>) {
    forall i, j :: 0 <= i < j < |s| ==> s[i].id != s[j].id
  }

  /** Python's `id in store`. */
  predicate HasId(s: seq<Entry>, id: string) {
    exists i | 0 <= i < |s| :: s[i].id == id
  }

  function Ids(s: seq<Entry>): set<string> {
    set i | 0 <= i < |s| :: s[i].id
  }

  /** An entry of the store has its id in the store. */
  lemma MemberHasId(s: seq<Entry>, e: Entry)
    requires e in s
    ensures HasId(s, e.id)
  {
    var i :| 0 <= i < |s| && s[i] == e;
  }

  lemma HasIdInIds(s: seq<Entry>, id: string)
    ensures HasId(s, id) <==> id in Ids(s)
  {
  }
}
