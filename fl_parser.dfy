/**
 * The non-browser part of the feed parser: the price-text classifier, the processed-tasks store
 * with its insert and its save step, the per-item accounting of one parsing pass, the cookie-file
 * line reader and the manager's running totals and duration text.
 */
module FeedParser {
  import opened Options
  import opened Strings
  import opened Numerals
  import opened DateTimes
  import opened StableSort
  import opened Postings

  // ---------------------------------------------------------------------------------------------
  // Price classification

  /** The lowercased price text of a "by agreement" posting holds this word. */
  const NegotiatedMarker := "договоренности"

  /** Any of these in the lowercased price text marks an hourly rate. */
  const HourlyMarkers: seq<string> := ["₽/час", "р/час", "руб/час", "р/ч"]

  /** The dash between the bounds of a price range. */
  const RangeDash := '—'

  /** The `(price, payment_type)` pair the listing loop derives from a price text. */
  datatype PriceClass = PriceClass(price: int, paymentType: string)

  /** Some marker of `markers` occurs in `lower`. */
  predicate AnyMarker(lower: string, markers: seq<string>) {
    exists i | 0 <= i < |markers| :: Contains(lower, markers[i])
  }

  /** The text the digits are read from: the stripped part before the first dash of a range, else all of it. */
  function PricePart(priceText: string): string {
    if RangeDash in priceText then Strip(Split(priceText, RangeDash)[0]) else priceText
  }

  /**
   * The classifier: "by agreement" is `(0, "negotiated")`; otherwise `int()` of the digits of the
   * price part, hourly when an hourly marker occurs and fixed in every other case (the fixed
   * markers lead to "fixed" as well); when there are no digits `int('')` fails and the result is
   * `(0, "unknown")`.
   */
  function ClassifyPrice(priceText: string): (r: PriceClass)
    ensures r.paymentType in {"negotiated", "hourly", "fixed", "unknown"}
  {
    var lower := Lower(priceText);
    if Contains(lower, NegotiatedMarker) then PriceClass(0, "negotiated")
    else
      match ParseInt(DigitsOf(PricePart(priceText)))
      case None => PriceClass(0, "unknown")
      case Some(v) => PriceClass(v, if AnyMarker(lower, HourlyMarkers) then "hourly" else "fixed")
  }

  /** `int('')` fails. */
  lemma ParseIntEmpty()
    ensures ParseInt("") == None
  {
    StripBlank("");
  }

  /** What the classifier yields, case by case. */
  lemma ClassifyPriceSpec(priceText: string)
    ensures Contains(Lower(priceText), NegotiatedMarker) ==> ClassifyPrice(priceText) == PriceClass(0, "negotiated")
    ensures !Contains(Lower(priceText), NegotiatedMarker) && DigitsOf(PricePart(priceText)) == "" ==>
      ClassifyPrice(priceText) == PriceClass(0, "unknown")
    ensures !Contains(Lower(priceText), NegotiatedMarker) && DigitsOf(PricePart(priceText)) != "" ==>
      && ClassifyPrice(priceText).price == DecimalValue(DigitsOf(PricePart(priceText)))
      && (ClassifyPrice(priceText).paymentType == "hourly" <==> AnyMarker(Lower(priceText), HourlyMarkers))
      && (ClassifyPrice(priceText).paymentType != "hourly" ==> ClassifyPrice(priceText).paymentType == "fixed")
    ensures ClassifyPrice(priceText).price >= 0
  {
    var digits := DigitsOf(PricePart(priceText));
    if digits == "" {
      ParseIntEmpty();
    } else {
      ParseIntOfDigits(digits);
    }
  }

  /** Blanks hold no digits. */
  lemma {:induction false} DigitsOfBlank(s: string)
    requires forall i :: 0 <= i < |s| ==> IsSpace(s[i])
    ensures DigitsOf(s) == ""
  {
    if s != [] {
      DigitsOfBlank(s[1..]);
    }
  }

  /** Stripping a text keeps its digits. */
  lemma DigitsOfStrip(s: string)
    ensures DigitsOf(Strip(s)) == DigitsOf(s)
  {
    TrimEndSpec(s);
    var e := TrimEnd(s);
    assert s == e + s[|e|..];
    DigitsOfAppend(e, s[|e|..]);
    DigitsOfBlank(s[|e|..]);
    TrimStartSpec(e);
    var r := TrimStart(e);
    assert e == e[..|e| - |r|] + r;
    DigitsOfAppend(e[..|e| - |r|], r);
    DigitsOfBlank(e[..|e| - |r|]);
  }

  /** A range "`low` — `high`" is priced by the digits of its lower bound. */
  lemma ClassifyRange(low: string, high: string)
    requires RangeDash !in low
    requires !Contains(Lower(low + [RangeDash] + high), NegotiatedMarker)
    requires DigitsOf(low) != ""
    ensures ClassifyPrice(low + [RangeDash] + high).price == DecimalValue(DigitsOf(low))
  {
    var t := low + [RangeDash] + high;
    assert t[|low|] == RangeDash;
    SplitAt(low, RangeDash, high);
    assert PricePart(t) == Strip(low);
    DigitsOfStrip(low);
    ClassifyPriceSpec(t);
  }

  // ---------------------------------------------------------------------------------------------
  // The processed-tasks store

  /** The task record the listing loop hands to `save_task`, detail fields included. */
  datatype RawTask = RawTask(
    id: string,
    title: string,
    price: int,
    priceText: string,
    paymentType: string,
    description: string,
    url: string,
    postedTime: string,
    views: string,
    responses: string,
    fullDescription: string,
    responsesCount: int,
    responsesInfo: string,
    publicationDate: string)

  /** The twelve fields `save_task` stores for a task; the responses data is not among them. */
  function Record(task: RawTask, now: DateTime): Posting
    requires Valid(now)
  {
    Posting(task.price, task.priceText, task.paymentType, task.description, task.title, task.url,
            task.postedTime, task.views, task.responses, task.fullDescription, task.publicationDate,
            IsoFormat(now), None, None)
  }

  /** An entry without its transient responses fields. */
  function Stripped(e: Entry): (r: Entry)
    ensures r.id == e.id
    ensures r.posting.responsesCount.None? && r.posting.responsesInfo.None?
  {
    Entry(e.id, e.posting.(responsesCount := None, responsesInfo := None))
  }

  function StripAll(s: seq<Entry>): (r: seq<Entry>)
    ensures |r| == |s|
    ensures forall i :: 0 <= i < |s| ==> r[i] == Stripped(s[i])
  {
    seq(|s|, i requires 0 <= i < |s| => Stripped(s[i]))
  }

  /** The sort key of the save step: newest first is ascending in the negated date key. */
  function NewestFirst(now: DateTime): Entry -> int {
    (e: Entry) => -Key(ParsePublicationDate(e.posting.publicationDate, now))
  }

  /** The store after `save_processed_tasks`: transient fields removed, then sorted by `key`. */
  function Saved(s: seq<Entry>, key: Entry -> int): seq<Entry> {
    Sort(StripAll(s), key)
  }

  /** Saving keeps the ids, each as often as before. */
  lemma SavedIds(s: seq<Entry>, key: Entry -> int)
    ensures |Saved(s, key)| == |s|
    ensures Ids(Saved(s, key)) == Ids(s)
    ensures UniqueIds(s) ==> UniqueIds(Saved(s, key))
  {
    var t := StripAll(s);
    var r := Saved(s, key);
    assert |r| == |t| by {
      assert |multiset(r)| == |multiset(t)|;
    }
    IdsOfPermutation(t, r);
    IdsOfStripAll(s);
    if UniqueIds(s) {
      assert UniqueIds(t) by {
        forall i, j | 0 <= i < j < |t| ensures t[i].id != t[j].id {
          assert t[i].id == s[i].id && t[j].id == s[j].id;
        }
      }
      UniqueIdsDistinct(t);
      SortDistinct(t, key, IdOf);
      UniqueIdsDistinct(r);
    }
  }

  /** Two lists holding the same entries hold the same ids. */
  lemma IdsOfPermutation(a: seq<Entry>, b: seq<Entry>)
    requires multiset(a) == multiset(b)
    ensures Ids(a) == Ids(b)
  {
    forall id | id in Ids(a) ensures id in Ids(b) {
      var i :| 0 <= i < |a| && a[i].id == id;
      assert a[i] in multiset(b);
      var j :| 0 <= j < |b| && b[j] == a[i];
    }
    forall id | id in Ids(b) ensures id in Ids(a) {
      var j :| 0 <= j < |b| && b[j].id == id;
      assert b[j] in multiset(a);
      var i :| 0 <= i < |a| && a[i] == b[j];
    }
  }

  /** Removing the transient fields keeps every id. */
  lemma IdsOfStripAll(s: seq<Entry>)
    ensures Ids(StripAll(s)) == Ids(s)
  {
    var t := StripAll(s);
    forall id | id in Ids(s) ensures id in Ids(t) {
      var i :| 0 <= i < |s| && s[i].id == id;
      assert t[i].id == id;
    }
    forall id | id in Ids(t) ensures id in Ids(s) {
      var i :| 0 <= i < |t| && t[i].id == id;
      assert s[i].id == id;
    }
  }

  lemma UniqueIdsDistinct(s: seq<Entry>)
    ensures UniqueIds(s) <==> Distinct(s, IdOf)
  {
  }

  /** After saving, no entry holds responses data, and the entries are in key order. */
  lemma SavedClean(s: seq<Entry>, key: Entry -> int)
    ensures forall e | e in Saved(s, key) :: e.posting.responsesCount.None? && e.posting.responsesInfo.None?
    ensures SortedBy(Saved(s, key), key)
  {
    var t := StripAll(s);
    forall e | e in Saved(s, key) ensures e.posting.responsesCount.None? && e.posting.responsesInfo.None? {
      assert e in multiset(t);
    }
    SortSorted(t, key);
  }

  /** With the newest-first key, no saved entry is dated before the one that follows it. */
  lemma SavedNewestFirst(s: seq<Entry>, now: DateTime)
    requires Valid(now)
    ensures var r := Saved(s, NewestFirst(now));
      forall i, j :: 0 <= i < j < |r| ==>
        !Before(ParsePublicationDate(r[i].posting.publicationDate, now), ParsePublicationDate(r[j].posting.publicationDate, now))
  {
    var r := Saved(s, NewestFirst(now));
    SavedClean(s, NewestFirst(now));
    forall i, j | 0 <= i < j < |r|
      ensures !Before(ParsePublicationDate(r[i].posting.publicationDate, now), ParsePublicationDate(r[j].posting.publicationDate, now))
    {
      var a := ParsePublicationDate(r[i].posting.publicationDate, now);
      var b := ParsePublicationDate(r[j].posting.publicationDate, now);
      assert NewestFirst(now)(r[i]) <= NewestFirst(now)(r[j]);
      KeyOrder(a, b);
    }
  }

  /** Saving after adding a new entry: the new id joins, every earlier entry stays (without responses data). */
  lemma SavedAfterInsert(s: seq<Entry>, e: Entry, key: Entry -> int)
    requires e.posting.responsesCount.None? && e.posting.responsesInfo.None?
    ensures Ids(Saved(s + [e], key)) == Ids(s) + {e.id}
    ensures e in Saved(s + [e], key)
    ensures forall x | x in s :: Stripped(x) in Saved(s + [e], key)
  {
    var t := s + [e];
    var r := Saved(t, key);
    SavedIds(t, key);
    IdsSnoc(s, e);
    var st := StripAll(t);
    assert multiset(r) == multiset(st);
    assert st[|s|] == e;
    assert e in multiset(r);
    forall x | x in s ensures Stripped(x) in r {
      var i :| 0 <= i < |s| && s[i] == x;
      assert st[i] == Stripped(x);
      assert Stripped(x) in multiset(r);
    }
  }

  /** The ids of a list with one more entry. */
  lemma IdsSnoc(s: seq<Entry>, e: Entry)
    ensures Ids(s + [e]) == Ids(s) + {e.id}
  {
    var t := s + [e];
    forall id | id in Ids(t) ensures id in Ids(s) + {e.id} {
      var i :| 0 <= i < |t| && t[i].id == id;
      if i < |s| {
        assert s[i] == t[i];
      }
    }
    forall id | id in Ids(s) ensures id in Ids(t) {
      var i :| 0 <= i < |s| && s[i].id == id;
      assert t[i] == s[i];
    }
    assert t[|s|] == e;
  }

  // ---------------------------------------------------------------------------------------------
  // One parsing pass over the listing

  /** The listing card fields the loop reads; a missing optional field gets its placeholder text. */
  datatype Card = Card(
    title: string,
    url: string,
    priceText: string,
    description: string,
    postedTime: string,
    views: Option<string>,
    responses: Option<string>)

  /**
   * One listing element as the browser yields it: its `id` attribute, its visible text, and the
   * card fields. `None` stands for a lookup that raises (a missing attribute, an unreadable text,
   * or a required card field that is not there).
   */
  datatype ListingItem = ListingItem(idAttribute: Option<string>, text: Option<string>, card: Option<Card>)

  /** What the detail page of a posting reports. */
  datatype Detail = Detail(
    hasExecutor: bool,
    fullDescription: string,
    responsesCount: int,
    responsesInfo: string,
    publicationDate: string)

  /** The per-pass counters of `parse_tasks`. */
  datatype Stats = Stats(found: nat, newTasks: nat, duplicates: nat, skipped: nat, hasExecutor: nat, detailedInfoObtained: nat)

  /** The listing text of a posting whose executor is already chosen holds this phrase. */
  const ExecutorMarker := "Исполнитель определён"

  /** The element id is this prefix followed by the posting id. */
  const ItemPrefix := "project-item"

  const NoViews := "Нет данных"
  const NoResponses := "Нет ответов"

  /** The listing marks the posting as taken. */
  predicate ExecutorListed(item: ListingItem) {
    item.text.Some? && Contains(item.text.value, ExecutorMarker)
  }

  /** Processing the element raises before anything is counted. */
  predicate Unreadable(item: ListingItem) {
    item.idAttribute.None? || (!ExecutorListed(item) && item.card.None?)
  }

  /** The posting id: the element id with every occurrence of the prefix removed. */
  function TaskId(item: ListingItem): string
    requires item.idAttribute.Some?
  {
    Replace(item.idAttribute.value, ItemPrefix, "")
  }

  /** The task record built from the card and its detail page. */
  function ListedTask(id: string, card: Card, d: Detail): (t: RawTask)
    ensures t.id == id && t.url == card.url && t.fullDescription == d.fullDescription
    ensures (t.price, t.paymentType) == (ClassifyPrice(card.priceText).price, ClassifyPrice(card.priceText).paymentType)
  {
    var c := ClassifyPrice(card.priceText);
    RawTask(id, card.title, c.price, card.priceText, c.paymentType, card.description, card.url, card.postedTime,
            card.views.GetOr(NoViews), card.responses.GetOr(NoResponses), d.fullDescription,
            d.responsesCount, d.responsesInfo, d.publicationDate)
  }

  /** The state the loop carries: the store, the tasks returned so far and the counters. */
  datatype Pass = Pass(store: seq<Entry>, tasks: seq<RawTask>, stats: Stats)

  /**
   * One element: an unreadable one changes nothing, a taken one (by its listing text, or by its
   * detail page for a new id) counts under `hasExecutor`, a known id counts as a duplicate, and a
   * new one is fetched in detail, saved and returned.
   */
  function Step(p: Pass, item: ListingItem, detail: string -> Detail, now: DateTime, key: Entry -> int): Pass
    requires Valid(now)
  {
    if item.idAttribute.None? then p
    else if ExecutorListed(item) then p.(stats := p.stats.(hasExecutor := p.stats.hasExecutor + 1))
    else if item.card.None? then p
    else
      var id := TaskId(item);
      var card := item.card.value;
      if HasId(p.store, id) then p.(stats := p.stats.(duplicates := p.stats.duplicates + 1))
      else
        var d := detail(card.url);
        if d.hasExecutor then p.(stats := p.stats.(hasExecutor := p.stats.hasExecutor + 1))
        else
          var task := ListedTask(id, card, d);
          Pass(Saved(p.store + [Entry(id, Record(task, now))], key), p.tasks + [task],
               p.stats.(newTasks := p.stats.newTasks + 1, detailedInfoObtained := p.stats.detailedInfoObtained + 1))
  }

  /** The loop over the elements, in order. */
  function Ingest(items: seq<ListingItem>, p: Pass, detail: string -> Detail, now: DateTime, key: Entry -> int): Pass
    requires Valid(now)
    decreases |items|
  {
    if items == [] then p else Ingest(items[1..], Step(p, items[0], detail, now, key), detail, now, key)
  }

  /** The number of unreadable elements. */
  function CountUnreadable(items: seq<ListingItem>): nat {
    if items == [] then 0 else (if Unreadable(items[0]) then 1 else 0) + CountUnreadable(items[1..])
  }

  /** The element a returned task was built from: readable, not taken, and not taken by its detail page. */
  ghost predicate SavedFrom(t: RawTask, item: ListingItem, detail: string -> Detail) {
    && item.idAttribute.Some? && !ExecutorListed(item) && item.card.Some?
    && TaskId(item) == t.id && !detail(item.card.value.url).hasExecutor
  }

  /**
   * The accounting of a pass: every element is new, a duplicate, taken or unreadable; every new
   * task is returned and was fetched in detail; `found` and `skipped` do not move.
   */
  lemma {:induction false} IngestAccounting(items: seq<ListingItem>, p: Pass, detail: string -> Detail, now: DateTime, key: Entry -> int)
    requires Valid(now)
    ensures var r := Ingest(items, p, detail, now, key);
      && r.stats.newTasks + r.stats.duplicates + r.stats.hasExecutor + CountUnreadable(items)
         == p.stats.newTasks + p.stats.duplicates + p.stats.hasExecutor + |items|
      && r.stats.newTasks + |p.tasks| == p.stats.newTasks + |r.tasks|
      && r.stats.detailedInfoObtained + p.stats.newTasks == p.stats.detailedInfoObtained + r.stats.newTasks
      && r.stats.found == p.stats.found && r.stats.skipped == p.stats.skipped
    decreases |items|
  {
    if items != [] {
      IngestAccounting(items[1..], Step(p, items[0], detail, now, key), detail, now, key);
    }
  }

  /** The ids of a list of tasks. */
  function TaskIds(ts: seq<RawTask>): set<string> {
    set k | 0 <= k < |ts| :: ts[k].id
  }

  /** `q` leaves the tasks and store of `p` alone, or saves and returns one task built from `item`. */
  ghost predicate StepShape(p: Pass, q: Pass, item: ListingItem, detail: string -> Detail) {
    || (q.tasks == p.tasks && q.store == p.store)
    || (exists task ::
          && q.tasks == p.tasks + [task] && SavedFrom(task, item, detail) && !HasId(p.store, task.id)
          && Ids(q.store) == Ids(p.store) + {task.id} && (UniqueIds(p.store) ==> UniqueIds(q.store)))
  }

  /** One element either leaves tasks and store alone or saves and returns one task built from it. */
  lemma StepSaves(p: Pass, item: ListingItem, detail: string -> Detail, now: DateTime, key: Entry -> int)
    requires Valid(now)
    ensures StepShape(p, Step(p, item, detail, now, key), item, detail)
  {
    var q := Step(p, item, detail, now, key);
    if q.tasks != p.tasks {
      var id := TaskId(item);
      var task := ListedTask(id, item.card.value, detail(item.card.value.url));
      var e := Entry(id, Record(task, now));
      assert !HasId(p.store, id) && SavedFrom(task, item, detail);
      assert q == Pass(Saved(p.store + [e], key), p.tasks + [task],
                       p.stats.(newTasks := p.stats.newTasks + 1, detailedInfoObtained := p.stats.detailedInfoObtained + 1));
      SavedAfterInsert(p.store, e, key);
      SavedIds(p.store + [e], key);
      if UniqueIds(p.store) {
        UniqueSnoc(p.store, e);
      }
    }
  }

  /** An entry whose id is not yet stored keeps the ids unique. */
  lemma UniqueSnoc(s: seq<Entry>, e: Entry)
    requires UniqueIds(s) && !HasId(s, e.id)
    ensures UniqueIds(s + [e])
  {
    var t := s + [e];
    forall i, j | 0 <= i < j < |t| ensures t[i].id != t[j].id {
      assert t[i] == s[i];
      if j < |s| {
        assert t[j] == s[j];
      }
    }
  }

  /** A pass appends to the tasks it is given. */
  lemma {:induction false} IngestExtends(items: seq<ListingItem>, p: Pass, detail: string -> Detail, now: DateTime, key: Entry -> int)
    requires Valid(now)
    ensures |p.tasks| <= |Ingest(items, p, detail, now, key).tasks|
    ensures Ingest(items, p, detail, now, key).tasks[..|p.tasks|] == p.tasks
    decreases |items|
  {
    if items != [] {
      var q := Step(p, items[0], detail, now, key);
      StepSaves(p, items[0], detail, now, key);
      IngestExtends(items[1..], q, detail, now, key);
      assert q.tasks[..|p.tasks|] == p.tasks;
    }
  }

  /** The store gains exactly the ids of the tasks a pass returns. */
  lemma {:induction false} IngestIds(items: seq<ListingItem>, p: Pass, detail: string -> Detail, now: DateTime, key: Entry -> int)
    requires Valid(now)
    ensures |p.tasks| <= |Ingest(items, p, detail, now, key).tasks|
    ensures var r := Ingest(items, p, detail, now, key);
      Ids(r.store) == Ids(p.store) + TaskIds(r.tasks[|p.tasks|..])
    decreases |items|
  {
    IngestExtends(items, p, detail, now, key);
    if items != [] {
      var q := Step(p, items[0], detail, now, key);
      StepSaves(p, items[0], detail, now, key);
      IngestIds(items[1..], q, detail, now, key);
      IngestExtends(items[1..], q, detail, now, key);
      ChainIds(p, q, Ingest(items[1..], q, detail, now, key), items[0], detail);
    }
  }

  /** One step followed by the rest of the pass, for the ids of the store. */
  lemma ChainIds(p: Pass, q: Pass, r: Pass, item: ListingItem, detail: string -> Detail)
    requires StepShape(p, q, item, detail)
    requires |q.tasks| <= |r.tasks| && r.tasks[..|q.tasks|] == q.tasks
    requires Ids(r.store) == Ids(q.store) + TaskIds(r.tasks[|q.tasks|..])
    ensures |p.tasks| <= |r.tasks|
    ensures Ids(r.store) == Ids(p.store) + TaskIds(r.tasks[|p.tasks|..])
  {
    var added := r.tasks[|q.tasks|..];
    if q.tasks != p.tasks {
      var task :| q.tasks == p.tasks + [task] && Ids(q.store) == Ids(p.store) + {task.id};
      var all := r.tasks[|p.tasks|..];
      assert all == [task] + added by {
        assert |q.tasks| == |p.tasks| + 1;
        assert r.tasks[|p.tasks|] == q.tasks[|p.tasks|] == task;
      }
      TaskIdsCons(task, added);
      assert TaskIds(all) == {task.id} + TaskIds(added);
    } else {
      assert r.tasks[|p.tasks|..] == added;
    }
  }

  lemma TaskIdsCons(t: RawTask, ts: seq<RawTask>)
    ensures TaskIds([t] + ts) == {t.id} + TaskIds(ts)
  {
    var s := [t] + ts;
    forall x | x in TaskIds(s) ensures x in {t.id} + TaskIds(ts) {
      var k :| 0 <= k < |s| && s[k].id == x;
      if k > 0 {
        assert s[k] == ts[k - 1];
      }
    }
    forall x | x in TaskIds(ts) ensures x in TaskIds(s) {
      var k :| 0 <= k < |ts| && ts[k].id == x;
      assert s[k + 1] == ts[k];
    }
    assert s[0] == t;
  }

  /** The tasks of `added` are built from elements of `items`, with ids `store` does not hold. */
  ghost predicate FromPass(added: seq<RawTask>, store: seq<Entry>, items: seq<ListingItem>, detail: string -> Detail) {
    forall t | t in added :: !HasId(store, t.id) && exists item | item in items :: SavedFrom(t, item, detail)
  }

  /**
   * Every task a pass returns is built from an element of the pass that was not taken, and its id
   * was not in the store when the pass began.
   */
  lemma {:induction false} IngestProvenance(items: seq<ListingItem>, p: Pass, detail: string -> Detail, now: DateTime, key: Entry -> int)
    requires Valid(now)
    ensures |p.tasks| <= |Ingest(items, p, detail, now, key).tasks|
    ensures FromPass(Ingest(items, p, detail, now, key).tasks[|p.tasks|..], p.store, items, detail)
    decreases |items|
  {
    IngestExtends(items, p, detail, now, key);
    if items != [] {
      var q := Step(p, items[0], detail, now, key);
      StepSaves(p, items[0], detail, now, key);
      IngestProvenance(items[1..], q, detail, now, key);
      IngestExtends(items[1..], q, detail, now, key);
      ChainProvenance(p, q, Ingest(items[1..], q, detail, now, key), items, detail);
    }
  }

  /** One step followed by the rest of the pass, for where the returned tasks come from. */
  lemma ChainProvenance(p: Pass, q: Pass, r: Pass, items: seq<ListingItem>, detail: string -> Detail)
    requires items != []
    requires StepShape(p, q, items[0], detail)
    requires |q.tasks| <= |r.tasks| && r.tasks[..|q.tasks|] == q.tasks
    requires FromPass(r.tasks[|q.tasks|..], q.store, items[1..], detail)
    ensures |p.tasks| <= |r.tasks|
    ensures FromPass(r.tasks[|p.tasks|..], p.store, items, detail)
  {
    var added := r.tasks[|q.tasks|..];
    forall t | t in added ensures !HasId(p.store, t.id) && exists item | item in items :: SavedFrom(t, item, detail) {
      var it :| it in items[1..] && SavedFrom(t, it, detail);
      assert it in items;
      if q.tasks != p.tasks {
        var task :| q.tasks == p.tasks + [task] && Ids(q.store) == Ids(p.store) + {task.id};
        HasIdInIds(q.store, t.id);
        HasIdInIds(p.store, t.id);
      }
    }
    if q.tasks != p.tasks {
      var task :| q.tasks == p.tasks + [task] && SavedFrom(task, items[0], detail) && !HasId(p.store, task.id);
      assert r.tasks[|p.tasks|..] == [task] + added;
      assert items[0] in items;
    } else {
      assert r.tasks[|p.tasks|..] == added;
    }
  }

  /** A pass keeps the ids of the store unique. */
  lemma {:induction false} IngestUnique(items: seq<ListingItem>, p: Pass, detail: string -> Detail, now: DateTime, key: Entry -> int)
    requires Valid(now)
    requires UniqueIds(p.store)
    ensures UniqueIds(Ingest(items, p, detail, now, key).store)
    decreases |items|
  {
    if items != [] {
      StepSaves(p, items[0], detail, now, key);
      IngestUnique(items[1..], Step(p, items[0], detail, now, key), detail, now, key);
    }
  }

  // ---------------------------------------------------------------------------------------------
  // The parser object

  class WorkzilaParser {
    /** `processed_tasks`, in the iteration order of the JSON object. */
    var processedTasks: seq<Entry>

    /** The store as loaded from disk. */
    constructor(loaded: seq<Entry>)
      ensures processedTasks == loaded
    {
      processedTasks := loaded;
    }

    method IsTaskProcessed(id: string) returns (processed: bool)
      ensures processed <==> HasId(processedTasks, id)
    {
      processed := false;
      var i := 0;
      while i < |processedTasks|
        invariant 0 <= i <= |processedTasks|
        invariant !processed <==> forall j :: 0 <= j < i ==> processedTasks[j].id != id
      {
        if processedTasks[i].id == id {
          processed := true;
        }
        i := i + 1;
      }
    }

    /** Removes the responses fields of every entry in place, then re-sorts newest first. */
    method SaveProcessedTasks(newestFirst: Entry -> int)
      modifies this
      ensures processedTasks == Saved(old(processedTasks), newestFirst)
    {
      var s := processedTasks;
      var i := 0;
      while i < |s|
        invariant 0 <= i <= |s| && |s| == |processedTasks|
        invariant forall j :: 0 <= j < i ==> s[j] == Stripped(processedTasks[j])
        invariant forall j :: i <= j < |s| ==> s[j] == processedTasks[j]
      {
        s := s[i := Stripped(s[i])];
        i := i + 1;
      }
      assert s == StripAll(processedTasks);
      processedTasks := Sort(s, newestFirst);
    }

    /** `save_task`: nothing for a known id; a new id gets its record, then the store is saved. */
    method SaveTask(task: RawTask, now: DateTime, newestFirst: Entry -> int) returns (saved: bool)
      requires Valid(now)
      modifies this
      ensures saved <==> !HasId(old(processedTasks), task.id)
      ensures !saved ==> processedTasks == old(processedTasks)
      ensures saved ==> processedTasks == Saved(old(processedTasks) + [Entry(task.id, Record(task, now))], newestFirst)
    {
      var known := IsTaskProcessed(task.id);
      if known {
        return false;
      }
      processedTasks := processedTasks + [Entry(task.id, Record(task, now))];
      SaveProcessedTasks(newestFirst);
      return true;
    }

    /** The loop of `parse_tasks` over the listing elements. */
    method ParseTasks(items: seq<ListingItem>, detail: string -> Detail, now: DateTime, newestFirst: Entry -> int)
      returns (tasks: seq<RawTask>, stats: Stats)
      requires Valid(now)
      modifies this
      ensures Pass(processedTasks, tasks, stats)
           == Ingest(items, Pass(old(processedTasks), [], Stats(|items|, 0, 0, 0, 0, 0)), detail, now, newestFirst)
    {
      tasks := [];
      stats := Stats(|items|, 0, 0, 0, 0, 0);
      var i := 0;
      while i < |items|
        invariant 0 <= i <= |items|
        invariant Ingest(items[i..], Pass(processedTasks, tasks, stats), detail, now, newestFirst)
               == Ingest(items, Pass(old(processedTasks), [], Stats(|items|, 0, 0, 0, 0, 0)), detail, now, newestFirst)
      {
        assert items[i..][1..] == items[i + 1..];
        tasks, stats := ProcessItem(items[i], detail, now, newestFirst, tasks, stats);
        i := i + 1;
      }
    }

    /** The body of the loop for one element. */
    method ProcessItem(item: ListingItem, detail: string -> Detail, now: DateTime, newestFirst: Entry -> int,
                       tasks: seq<RawTask>, stats: Stats)
      returns (tasks': seq<RawTask>, stats': Stats)
      requires Valid(now)
      modifies this
      ensures Pass(processedTasks, tasks', stats') == Step(Pass(old(processedTasks), tasks, stats), item, detail, now, newestFirst)
    {
      if item.idAttribute.None? {
        return tasks, stats;
      }
      if ExecutorListed(item) {
        return tasks, stats.(hasExecutor := stats.hasExecutor + 1);
      }
      if item.card.None? {
        return tasks, stats;
      }
      var id := Replace(item.idAttribute.value, ItemPrefix, "");
      var card := item.card.value;
      var known := IsTaskProcessed(id);
      if known {
        return tasks, stats.(duplicates := stats.duplicates + 1);
      }
      var d := detail(card.url);
      if d.hasExecutor {
        return tasks, stats.(hasExecutor := stats.hasExecutor + 1);
      }
      var task := ListedTask(id, card, d);
      stats' := stats.(detailedInfoObtained := stats.detailedInfoObtained + 1);
      SaveNew(task, now, newestFirst);
      stats' := stats'.(newTasks := stats'.newTasks + 1);
      tasks' := tasks + [task];
    }

    /** The save of a task whose id the duplicate check has just let through. */
    method SaveNew(task: RawTask, now: DateTime, newestFirst: Entry -> int)
      requires Valid(now) && !HasId(processedTasks, task.id)
      modifies this
      ensures processedTasks == Saved(old(processedTasks) + [Entry(task.id, Record(task, now))], newestFirst)
    {
      var saved := SaveTask(task, now, newestFirst);
      if !saved {
        // `save_task` accepts every id the duplicate check just let through.
        assert false;
      }
    }
  }

  // ---------------------------------------------------------------------------------------------
  // Cookie-file lines

  /** Cookies whose domain ends with this are kept. */
  const CookieDomain := "fl.ru"

  /**
   * The `(name, value)` one line of a Netscape cookie file contributes: none for a comment line,
   * none unless the stripped line has seven tab-separated fields with the domain in field 0.
   */
  function CookieLine(line: string): (c: Option<(string, string)>)
    ensures StartsWith(line, "#") ==> c.None?
  {
    if StartsWith(line, "#") then None
    else
      var fields := Split(Strip(line), '\t');
      if |fields| >= 7 && EndsWith(fields[0], CookieDomain) then Some((fields[5], fields[6])) else None
  }

  /** The cookies set by a sequence of line results: a later one with the same name replaces the value. */
  function FoldCookies(cs: seq<Option<(string, string)>>): map<string, string> {
    if cs == [] then map[]
    else
      var m := FoldCookies(cs[..|cs| - 1]);
      match cs[|cs| - 1]
      case None => m
      case Some(cookie) => m[cookie.0 := cookie.1]
  }

  /** The cookies of a cookie file's lines, in file order. */
  function CookieMap(lines: seq<string>): map<string, string> {
    FoldCookies(seq(|lines|, i requires 0 <= i < |lines| => CookieLine(lines[i])))
  }

  /** Result `i` sets cookie `name`. */
  predicate Sets(cs: seq<Option<(string, string)>>, i: int, name: string) {
    0 <= i < |cs| && cs[i].Some? && cs[i].value.0 == name
  }

  lemma {:induction false} FoldCookiesSpec(cs: seq<Option<(string, string)>>, name: string)
    ensures name in FoldCookies(cs) <==> exists i :: Sets(cs, i, name)
    ensures name in FoldCookies(cs) ==>
      exists i :: Sets(cs, i, name) && cs[i].value.1 == FoldCookies(cs)[name]
        && forall j :: i < j < |cs| ==> !Sets(cs, j, name)
    decreases |cs|
  {
    if cs != [] {
      var init := cs[..|cs| - 1];
      var n := |cs| - 1;
      FoldCookiesSpec(init, name);
      forall i | 0 <= i < n ensures Sets(cs, i, name) == Sets(init, i, name) {
        assert cs[i] == init[i];
      }
      if !Sets(cs, n, name) {
        if exists i :: Sets(cs, i, name) {
          var i :| Sets(cs, i, name);
          assert Sets(init, i, name);
        }
        if name in FoldCookies(cs) {
          assert FoldCookies(cs)[name] == FoldCookies(init)[name];
          var i :| Sets(init, i, name) && init[i].value.1 == FoldCookies(init)[name]
            && forall j :: i < j < |init| ==> !Sets(init, j, name);
          assert Sets(cs, i, name);
        }
      }
    }
  }

  /** Line `i` sets cookie `name`. */
  predicate SetsCookie(lines: seq<string>, i: int, name: string) {
    0 <= i < |lines| && CookieLine(lines[i]).Some? && CookieLine(lines[i]).value.0 == name
  }

  /**
   * A cookie is present exactly when some line sets it, and it holds the value of the last line
   * that does.
   */
  lemma CookieMapSpec(lines: seq<string>, name: string)
    ensures name in CookieMap(lines) <==> exists i :: SetsCookie(lines, i, name)
    ensures name in CookieMap(lines) ==>
      exists i :: SetsCookie(lines, i, name) && CookieLine(lines[i]).value.1 == CookieMap(lines)[name]
        && forall j :: i < j < |lines| ==> !SetsCookie(lines, j, name)
  {
    var cs := seq(|lines|, i requires 0 <= i < |lines| => CookieLine(lines[i]));
    FoldCookiesSpec(cs, name);
    forall i ensures Sets(cs, i, name) == SetsCookie(lines, i, name) {
    }
  }

  /** The line loop of `load_cookies`. */
  method LoadCookies(lines: seq<string>) returns (cookies: map<string, string>)
    ensures cookies == CookieMap(lines)
  {
    cookies := map[];
    var i := 0;
    while i < |lines|
      invariant 0 <= i <= |lines|
      invariant cookies == CookieMap(lines[..i])
    {
      var line := lines[i];
      ghost var cs := seq(i + 1, k requires 0 <= k < i + 1 => CookieLine(lines[..i + 1][k]));
      assert cs[..i] == seq(i, k requires 0 <= k < i => CookieLine(lines[..i][k]));
      if !StartsWith(line, "#") {
        var fields := Split(Strip(line), '\t');
        if |fields| >= 7 {
          if EndsWith(fields[0], CookieDomain) {
            cookies := cookies[fields[5] := fields[6]];
          }
        }
      }
      i := i + 1;
    }
    assert lines[..|lines|] == lines;
  }

  // ---------------------------------------------------------------------------------------------
  // The manager

  /** Hours, minutes and seconds of a duration. */
  datatype Hms = Hms(hours: nat, minutes: nat, seconds: nat)

  /** `format_duration`'s split of a number of seconds. */
  function Duration(seconds: nat): (d: Hms)
    ensures d.minutes < 60 && d.seconds < 60
    ensures d.hours * 3600 + d.minutes * 60 + d.seconds == seconds
  {
    Hms(seconds / 3600, seconds % 3600 / 60, seconds % 60)
  }

  /** The split is the only one with minutes and seconds below 60. */
  lemma DurationUnique(h: nat, m: nat, s: nat)
    requires m < 60 && s < 60
    ensures Duration(h * 3600 + m * 60 + s) == Hms(h, m, s)
  {
    var total := h * 3600 + m * 60 + s;
    var d := Duration(total);
    assert m * 60 + s < 3600;
    assert total / 3600 == h;
    assert total % 3600 == m * 60 + s;
  }

  /** `format_duration`: the text `"<h>ч <m>м <s>с"`. */
  function FormatDuration(seconds: nat): string {
    var d := Duration(seconds);
    NatToString(d.hours) + "ч " + NatToString(d.minutes) + "м " + NatToString(d.seconds) + "с"
  }

  /** `h` hours, `m` minutes and `s` seconds, with `m` and `s` below 60, are written as those three numbers. */
  lemma FormatDurationOf(h: nat, m: nat, s: nat)
    requires m < 60 && s < 60
    ensures FormatDuration(h * 3600 + m * 60 + s) == NatToString(h) + "ч " + NatToString(m) + "м " + NatToString(s) + "с"
  {
    DurationUnique(h, m, s);
  }

  /** Two runs of digits, each followed by a text that starts with a non-digit, split the same way. */
  lemma DigitsPrefix(x: string, p: string, y: string, q: string)
    requires AllDigits(x) && AllDigits(y) && x + p == y + q
    requires p != [] && !IsDigit(p[0]) && q != [] && !IsDigit(q[0])
    ensures x == y && p == q
  {
    var t := x + p;
    assert forall i :: 0 <= i < |x| ==> IsDigit(t[i]);
    assert forall i :: 0 <= i < |y| ==> IsDigit(t[i]);
    assert !IsDigit(t[|x|]) && !IsDigit(t[|y|]);
    assert x == t[..|x|] && y == t[..|y|];
    assert p == t[|x|..] && q == t[|y|..];
  }

  /** The three numbers of a duration text are read back from it. */
  lemma NumeralsBeforeUnits(ha: string, ma: string, sa: string, hb: string, mb: string, sb: string)
    requires AllDigits(ha) && AllDigits(ma) && AllDigits(sa) && AllDigits(hb) && AllDigits(mb) && AllDigits(sb)
    requires ha + "ч " + ma + "м " + sa + "с" == hb + "ч " + mb + "м " + sb + "с"
    ensures ha == hb && ma == mb && sa == sb
  {
    var ta, tb := "ч " + ma + "м " + sa + "с", "ч " + mb + "м " + sb + "с";
    assert ha + "ч " + ma + "м " + sa + "с" == ha + ta;
    assert hb + "ч " + mb + "м " + sb + "с" == hb + tb;
    DigitsPrefix(ha, ta, hb, tb);
    assert ta == "ч " + (ma + ("м " + sa + "с")) && tb == "ч " + (mb + ("м " + sb + "с"));
    assert ma + ("м " + sa + "с") == ta[2..] == tb[2..] == mb + ("м " + sb + "с");
    DigitsPrefix(ma, "м " + sa + "с", mb, "м " + sb + "с");
    assert "м " + (sa + "с") == "м " + sa + "с" && "м " + (sb + "с") == "м " + sb + "с";
    assert sa + "с" == ("м " + sa + "с")[2..] == ("м " + sb + "с")[2..] == sb + "с";
    DigitsPrefix(sa, "с", sb, "с");
  }

  /** Distinct durations give distinct texts: each number reads back through `int()`. */
  lemma FormatDurationInjective(a: nat, b: nat)
    requires FormatDuration(a) == FormatDuration(b)
    ensures a == b
  {
    var da, db := Duration(a), Duration(b);
    var ha, ma, sa := NatToString(da.hours), NatToString(da.minutes), NatToString(da.seconds);
    var hb, mb, sb := NatToString(db.hours), NatToString(db.minutes), NatToString(db.seconds);
    NumeralsBeforeUnits(ha, ma, sa, hb, mb, sb);
    DecimalValueOfNatToString(da.hours);
    DecimalValueOfNatToString(db.hours);
    DecimalValueOfNatToString(da.minutes);
    DecimalValueOfNatToString(db.minutes);
    DecimalValueOfNatToString(da.seconds);
    DecimalValueOfNatToString(db.seconds);
  }

  /** The running totals the manager keeps across passes. */
  datatype Totals = Totals(
    totalParsed: nat,
    totalNew: nat,
    totalDuplicates: nat,
    totalSkipped: nat,
    totalHasExecutor: nat,
    totalDetailedInfo: nat)

  /** `update_total_stats`: every total grows by its counter of the pass. */
  function Accumulate(t: Totals, s: Stats): (r: Totals)
    ensures r.totalParsed - t.totalParsed == s.found && r.totalNew - t.totalNew == s.newTasks
    ensures r.totalDuplicates - t.totalDuplicates == s.duplicates && r.totalSkipped - t.totalSkipped == s.skipped
    ensures r.totalHasExecutor - t.totalHasExecutor == s.hasExecutor
    ensures r.totalDetailedInfo - t.totalDetailedInfo == s.detailedInfoObtained
  {
    Totals(t.totalParsed + s.found, t.totalNew + s.newTasks, t.totalDuplicates + s.duplicates,
           t.totalSkipped + s.skipped, t.totalHasExecutor + s.hasExecutor, t.totalDetailedInfo + s.detailedInfoObtained)
  }

  /** The totals after a sequence of passes. */
  function AccumulateAll(t: Totals, passes: seq<Stats>): Totals
    decreases |passes|
  {
    if passes == [] then t else AccumulateAll(Accumulate(t, passes[0]), passes[1..])
  }

  /** The stats of a pass balance: every found element is new, a duplicate, taken or unreadable. */
  predicate PassBalanced(s: Stats) {
    s.newTasks == s.detailedInfoObtained && s.newTasks + s.duplicates + s.hasExecutor <= s.found && s.skipped == 0
  }

  /** The totals balance the same way. */
  predicate TotalsBalanced(t: Totals) {
    t.totalNew == t.totalDetailedInfo && t.totalNew + t.totalDuplicates + t.totalHasExecutor <= t.totalParsed
    && t.totalSkipped == 0
  }

  /** Totals summed over balanced passes stay balanced. */
  lemma {:induction false} AccumulateAllBalanced(t: Totals, passes: seq<Stats>)
    requires TotalsBalanced(t)
    requires forall i :: 0 <= i < |passes| ==> PassBalanced(passes[i])
    ensures TotalsBalanced(AccumulateAll(t, passes))
    decreases |passes|
  {
    if passes != [] {
      assert PassBalanced(passes[0]);
      AccumulateAllBalanced(Accumulate(t, passes[0]), passes[1..]);
    }
  }

  /** A pass of `parse_tasks` started from fresh counters is balanced. */
  lemma ParseTasksBalanced(items: seq<ListingItem>, store: seq<Entry>, detail: string -> Detail, now: DateTime, key: Entry -> int)
    requires Valid(now)
    ensures PassBalanced(Ingest(items, Pass(store, [], Stats(|items|, 0, 0, 0, 0, 0)), detail, now, key).stats)
  {
    IngestAccounting(items, Pass(store, [], Stats(|items|, 0, 0, 0, 0, 0)), detail, now, key);
  }

  class ParserManager {
    var totalStats: Totals

    constructor()
      ensures totalStats == Totals(0, 0, 0, 0, 0, 0)
    {
      totalStats := Totals(0, 0, 0, 0, 0, 0);
    }

    method UpdateTotalStats(stats: Stats, tasks: seq<RawTask>)
      modifies this
      ensures totalStats == Accumulate(old(totalStats), stats)
    {
      totalStats := totalStats.(totalParsed := totalStats.totalParsed + stats.found);
      totalStats := totalStats.(totalNew := totalStats.totalNew + stats.newTasks);
      totalStats := totalStats.(totalDuplicates := totalStats.totalDuplicates + stats.duplicates);
      totalStats := totalStats.(totalSkipped := totalStats.totalSkipped + stats.skipped);
      totalStats := totalStats.(totalHasExecutor := totalStats.totalHasExecutor + stats.hasExecutor);
      totalStats := totalStats.(totalDetailedInfo := totalStats.totalDetailedInfo + stats.detailedInfoObtained);
    }
  }
}
