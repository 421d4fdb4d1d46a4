/**
 * The notifier's reconciler: which stored postings a subscriber is told about. The posting store
 * is read as a sequence of entries in the order its JSON object lists them; `now` stands for the
 * clock the source reads when a stamp does not parse, and `model` for the language model that
 * summarises a description.
 */
module TaskProcessing {
  import opened Options
  import opened Strings
  import opened Numerals
  import opened DateTimes
  import opened StableSort
  import opened Postings
  import opened Subscribers

  // ---------------------------------------------------------------------------------------------
  // Dates and the date order

  /** The notifier's stamp reader: a blank stamp is `now` at once, anything else goes to the shared rule. */
  function TaskDate(text: string, now: DateTime): (d: DateTime)
    ensures d == now || (Valid(d) && d.second == 0 && d.microsecond == 0)
  {
    if text == "" || Strip(text) == "" then now else ParsePublicationDate(text, now)
  }

  /** The blank guard is redundant: the notifier and the feed parser read every stamp alike. */
  lemma TaskDateAgrees(text: string, now: DateTime)
    ensures TaskDate(text, now) == ParsePublicationDate(text, now)
  {
    if Strip(text) == "" {
      StripEmpty(text);
      ParseBlank(text, now);
    }
  }

  /** A stamp `DD.MM.YYYY | HH:MM`, with or without a bracketed note, reads as exactly that minute. */
  lemma TaskDateOfStamp(d: DateTime, note: string, now: DateTime)
    requires Valid(d) && d.second == 0 && d.microsecond == 0
    requires note == [] || note[0] == '['
    ensures TaskDate(Stamp(d) + note, now) == d
  {
    TaskDateAgrees(Stamp(d) + note, now);
    ParseStamp(d, note, now);
  }

  /** The notifier reads a matched stamp as `strptime` of the groups at the first match, or `now`. */
  lemma TaskDateFirstMatch(text: string, now: DateTime, k: nat, date: string, time: string)
    requires MatchAt(MainPart(text), k) == Some((date, time))
    requires forall k' :: 0 <= k' < k ==> MatchAt(MainPart(text), k').None?
    ensures TaskDate(text, now) == Strptime(date + " " + time, false).GetOr(now)
  {
    TaskDateAgrees(text, now);
    ParseFirstMatch(text, now, k, date, time);
  }

  /** A stamp after a lead-in without digits, with any blanks around the bar, reads as its minute. */
  lemma TaskDateOfSpacedStamp(pre: string, d: DateTime, sp1: string, sp2: string, tail: string, note: string, now: DateTime)
    requires Valid(d) && d.second == 0 && d.microsecond == 0
    requires '[' !in pre && (pre == [] || !IsSpace(pre[0]))
    requires forall k :: 0 <= k < |pre| ==> !IsDigit(pre[k])
    requires forall k :: 0 <= k < |sp1| ==> IsSpace(sp1[k])
    requires forall k :: 0 <= k < |sp2| ==> IsSpace(sp2[k])
    requires forall k :: 0 <= k < |tail| ==> IsSpace(tail[k])
    requires note == [] || note[0] == '['
    ensures TaskDate(pre + DateText(d) + sp1 + "|" + sp2 + TimeText(d) + tail + note, now) == d
  {
    TaskDateAgrees(pre + DateText(d) + sp1 + "|" + sp2 + TimeText(d) + tail + note, now);
    ParseSpacedStamp(pre, d, sp1, sp2, tail, note, now);
  }

  /** An empty or blank stamp reads as `now`. */
  lemma TaskDateBlank(text: string, now: DateTime)
    requires forall i :: 0 <= i < |text| ==> IsSpace(text[i])
    ensures TaskDate(text, now) == now
  {
    StripBlank(text);
  }

  /** The sort key of a stored posting: its publication instant. */
  function DateKey(e: Entry, now: DateTime): int {
    Key(TaskDate(e.posting.publicationDate, now))
  }

  /** `key=lambda x: parse_publication_date(x[1].get('publication_date', ''))`. */
  function ByDate(now: DateTime): Entry -> int {
    e => DateKey(e, now)
  }

  /** Comparing keys is comparing the parsed `datetime` values. */
  lemma DateKeyOrder(a: Entry, b: Entry, now: DateTime)
    requires Valid(now)
    ensures DateKey(a, now) < DateKey(b, now) <==> Before(TaskDate(a.posting.publicationDate, now), TaskDate(b.posting.publicationDate, now))
    ensures DateKey(a, now) == DateKey(b, now) <==> TaskDate(a.posting.publicationDate, now) == TaskDate(b.posting.publicationDate, now)
  {
    KeyOrder(TaskDate(a.posting.publicationDate, now), TaskDate(b.posting.publicationDate, now));
  }

  /** `sorted_tasks` after `sorted_tasks.sort(key=...)`: ascending in the key, ties in store order. */
  function SortedTasks(tasks: seq<Entry>, key: Entry -> int): (r: seq<Entry>)
    ensures multiset(r) == multiset(tasks) && |r| == |tasks|
  {
    assert |multiset(Sort(tasks, key))| == |multiset(tasks)|;
    Sort(tasks, key)
  }

  /** `UniqueIds` is `Distinct` on the id projection. */
  lemma UniqueIdsDistinct(s: seq<Entry>)
    ensures UniqueIds(s) <==> Distinct(s, IdOf)
  {
  }

  /** Sorting keeps every id. */
  lemma SortedHasId(tasks: seq<Entry>, key: Entry -> int, id: string)
    requires HasId(tasks, id)
    ensures HasId(SortedTasks(tasks, key), id)
  {
    var sorted := SortedTasks(tasks, key);
    var i :| 0 <= i < |tasks| && tasks[i].id == id;
    assert tasks[i] in multiset(sorted);
    var j :| 0 <= j < |sorted| && sorted[j] == tasks[i];
  }

  /** Sorting keeps ids unique. */
  lemma SortedUnique(tasks: seq<Entry>, key: Entry -> int)
    requires UniqueIds(tasks)
    ensures UniqueIds(SortedTasks(tasks, key))
  {
    UniqueIdsDistinct(tasks);
    SortDistinct(tasks, key, IdOf);
    UniqueIdsDistinct(SortedTasks(tasks, key));
  }

  /** The sorted order is non-decreasing in the key. */
  lemma SortedByKey(tasks: seq<Entry>, key: Entry -> int)
    ensures forall i, j :: 0 <= i < j < |SortedTasks(tasks, key)| ==>
      key(SortedTasks(tasks, key)[i]) <= key(SortedTasks(tasks, key)[j])
  {
    SortSorted(tasks, key);
  }

  // ---------------------------------------------------------------------------------------------
  // get_latest_task_id

  /** The store lists a non-empty `publication_date` for the posting. */
  predicate Dated(e: Entry) {
    e.posting.publicationDate != ""
  }

  /** Position `k` holds a dated posting with the greatest key, and no earlier dated posting ties with it. */
  predicate IsLatest(s: seq<Entry>, key: Entry -> int, k: nat) {
    k < |s| && Dated(s[k])
    && (forall j | 0 <= j < |s| && Dated(s[j]) :: key(s[j]) <= key(s[k]))
    && (forall j | 0 <= j < k && Dated(s[j]) :: key(s[j]) < key(s[k]))
  }

  /** The position `get_latest_task_id` settles on: none when no posting is dated. */
  function LatestIndex(s: seq<Entry>, key: Entry -> int): (r: Option<nat>)
    ensures r.None? <==> forall j :: 0 <= j < |s| ==> !Dated(s[j])
    ensures r.Some? ==> IsLatest(s, key, r.value)
  {
    if s == [] then None
    else
      var init := s[..|s| - 1];
      var prev := LatestIndex(init, key);
      assert forall j :: 0 <= j < |init| ==> init[j] == s[j];
      var last := s[|s| - 1];
      if !Dated(last) then prev
      else if prev.None? || key(last) > key(s[prev.value]) then Some(|s| - 1)
      else prev
  }

  /** The latest position is unique. */
  lemma LatestUnique(s: seq<Entry>, key: Entry -> int, k1: nat, k2: nat)
    requires IsLatest(s, key, k1) && IsLatest(s, key, k2)
    ensures k1 == k2
  {
  }

  /** The id `get_latest_task_id` returns. */
  function LatestId(tasks: seq<Entry>, key: Entry -> int): Option<string> {
    match LatestIndex(tasks, key)
    case None => None
    case Some(k) => Some(tasks[k].id)
  }

  /** One pass over the store, keeping the first posting whose date beats every earlier one. */
  method GetLatestTaskId(tasks: seq<Entry>, byDate: Entry -> int) returns (latest: Option<string>)
    ensures latest == LatestId(tasks, byDate)
    ensures latest.None? <==> forall j :: 0 <= j < |tasks| ==> !Dated(tasks[j])
    ensures latest.Some? ==> exists k: nat :: IsLatest(tasks, byDate, k) && tasks[k].id == latest.value
  {
    if tasks == [] {
      return None;
    }
    latest := None;
    var latestKey := 0;
    ghost var best: Option<nat> := None;
    var i := 0;
    while i < |tasks|
      invariant 0 <= i <= |tasks|
      invariant best == LatestIndex(tasks[..i], byDate)
      invariant best.Some? ==> best.value < i && latest == Some(tasks[best.value].id)
      invariant best.Some? ==> latestKey == byDate(tasks[best.value])
      invariant best.None? ==> latest.None?
    {
      assert tasks[..i + 1][..i] == tasks[..i];
      var date := tasks[i].posting.publicationDate;
      if date != "" {
        var dateKey := byDate(tasks[i]);
        if latest.None? || dateKey > latestKey {
          latest := Some(tasks[i].id);
          latestKey := dateKey;
          best := Some(i);
        }
      }
      i := i + 1;
    }
    assert tasks[..i] == tasks;
  }

  // ---------------------------------------------------------------------------------------------
  // Searching the sorted order

  /** The first position of `id`. */
  function Position(s: seq<Entry>, id: string): (k: nat)
    requires HasId(s, id)
    ensures k < |s| && s[k].id == id
    ensures forall j :: 0 <= j < k ==> s[j].id != id
  {
    if s[0].id == id then 0
    else
      assert HasId(s[1..], id) by {
        var i :| 0 <= i < |s| && s[i].id == id;
        assert s[1..][i - 1] == s[i];
      }
      Position(s[1..], id) + 1
  }

  /** The `enumerate` loop with `break`: the first position of `id`, or -1. */
  method FindIndex(s: seq<Entry>, id: string) returns (k: int)
    ensures k == -1 <==> !HasId(s, id)
    ensures k != -1 ==> HasId(s, id) && k == Position(s, id)
  {
    k := 0;
    while k < |s|
      invariant 0 <= k <= |s|
      invariant forall j :: 0 <= j < k ==> s[j].id != id
    {
      if s[k].id == id {
        var p := Position(s, id);
        assert !(p < k) && !(k < p);
        return;
      }
      k := k + 1;
    }
    k := -1;
  }

  // ---------------------------------------------------------------------------------------------
  // get_new_tasks

  /** `not last_id or last_id not in tasks`. */
  predicate CursorMissing(tasks: seq<Entry>, lastId: Option<string>) {
    lastId.None? || lastId.value == "" || !HasId(tasks, lastId.value)
  }

  /** What `get_new_tasks` returns, in its order. */
  function NewTasks(tasks: seq<Entry>, lastId: Option<string>, key: Entry -> int): seq<Entry> {
    if tasks == [] then []
    else if CursorMissing(tasks, lastId) then
      match LatestIndex(tasks, key)
      case None => []
      case Some(k) => if tasks[k].id == "" then [] else [tasks[k]]
    else TasksAfter(tasks, lastId.value, key)
  }

  /** The postings after the cursor in date order. */
  function TasksAfter(tasks: seq<Entry>, cursor: string, key: Entry -> int): seq<Entry>
    requires HasId(tasks, cursor)
  {
    var sorted := SortedTasks(tasks, key);
    SortedHasId(tasks, key, cursor);
    sorted[Position(sorted, cursor) + 1..]
  }

  /** Without a usable cursor: at most the one latest posting, and it whenever its id is not empty. */
  lemma NewTasksFallback(tasks: seq<Entry>, lastId: Option<string>, key: Entry -> int)
    requires CursorMissing(tasks, lastId)
    ensures |NewTasks(tasks, lastId, key)| <= 1
    ensures NewTasks(tasks, lastId, key) != [] ==>
      exists k: nat :: IsLatest(tasks, key, k) && NewTasks(tasks, lastId, key) == [tasks[k]]
    ensures (exists k: nat :: IsLatest(tasks, key, k) && tasks[k].id != "") ==> NewTasks(tasks, lastId, key) != []
  {
    var r := LatestIndex(tasks, key);
    var n := NewTasks(tasks, lastId, key);
    if r.None? {
      assert n == [];
      assert forall k: nat :: !IsLatest(tasks, key, k);
    } else {
      var k := r.value;
      assert n == if tasks[k].id == "" then [] else [tasks[k]];
      assert IsLatest(tasks, key, k);
      forall k2: nat | IsLatest(tasks, key, k2) ensures k2 == k {
        LatestUnique(tasks, key, k, k2);
      }
    }
  }

  /**
   * With a cursor among the postings: exactly the postings after it in the sorted order, in that
   * order; with unique ids the cursor itself is never among them.
   */
  lemma NewTasksAfterCursor(tasks: seq<Entry>, cursor: string, key: Entry -> int)
    requires HasId(tasks, cursor) && cursor != ""
    requires UniqueIds(tasks)
    ensures var sorted := SortedTasks(tasks, key);
      exists c :: 0 <= c < |sorted| && sorted[c].id == cursor && NewTasks(tasks, Some(cursor), key) == sorted[c + 1..]
    ensures forall e | e in NewTasks(tasks, Some(cursor), key) :: e.id != cursor && e in tasks
    ensures SortedBy(NewTasks(tasks, Some(cursor), key), key)
  {
    assert NewTasks(tasks, Some(cursor), key) == TasksAfter(tasks, cursor, key);
    TasksAfterSpec(tasks, cursor, key);
  }

  lemma TasksAfterSpec(tasks: seq<Entry>, cursor: string, key: Entry -> int)
    requires HasId(tasks, cursor) && UniqueIds(tasks)
    ensures var sorted := SortedTasks(tasks, key);
      exists c :: 0 <= c < |sorted| && sorted[c].id == cursor && TasksAfter(tasks, cursor, key) == sorted[c + 1..]
    ensures forall e | e in TasksAfter(tasks, cursor, key) :: e.id != cursor && e in tasks
    ensures SortedBy(TasksAfter(tasks, cursor, key), key)
  {
    var sorted := SortedTasks(tasks, key);
    var r := TasksAfter(tasks, cursor, key);
    var c := TasksAfterSuffix(tasks, cursor, key);
    assert 0 <= c < |sorted| && sorted[c].id == cursor && r == sorted[c + 1..];
    SortedUnique(tasks, key);
    SortSorted(tasks, key);
    SuffixAfter(sorted, c, r, key);
    MembersOfPermutation(sorted, tasks, r);
  }

  lemma TasksAfterSuffix(tasks: seq<Entry>, cursor: string, key: Entry -> int) returns (c: nat)
    requires HasId(tasks, cursor)
    ensures var sorted := SortedTasks(tasks, key);
      c < |sorted| && sorted[c].id == cursor && TasksAfter(tasks, cursor, key) == sorted[c + 1..]
  {
    var sorted := SortedTasks(tasks, key);
    SortedHasId(tasks, key, cursor);
    c := Position(sorted, cursor);
  }

  /** What is drawn from a permutation of the store is drawn from the store. */
  lemma MembersOfPermutation(s: seq<Entry>, t: seq<Entry>, r: seq<Entry>)
    requires multiset(s) == multiset(t)
    requires forall e | e in r :: e in s
    ensures forall e | e in r :: e in t
  {
    forall e | e in r ensures e in t {
      assert e in multiset(s);
    }
  }

  /** The part of a sorted list with unique ids after index `c`: still sorted, and without the id at `c`. */
  lemma SuffixAfter(s: seq<Entry>, c: nat, r: seq<Entry>, key: Entry -> int)
    requires c < |s| && UniqueIds(s) && r == s[c + 1..]
    requires SortedBy(s, key)
    ensures forall e | e in r :: e.id != s[c].id && e in s
    ensures SortedBy(r, key)
  {
    forall e | e in r ensures e.id != s[c].id && e in s {
      var j :| 0 <= j < |r| && r[j] == e;
      assert s[c + 1 + j] == e;
    }
    forall i, j | 0 <= i < j < |r| ensures key(r[i]) <= key(r[j]) {
      assert r[i] == s[c + 1 + i] && r[j] == s[c + 1 + j];
    }
  }

  /** `get_new_tasks`: the fallback to the latest posting, or the postings after the cursor. */
  method GetNewTasks(tasks: seq<Entry>, lastId: Option<string>, byDate: Entry -> int) returns (newTasks: seq<Entry>)
    requires UniqueIds(tasks)
    ensures newTasks == NewTasks(tasks, lastId, byDate)
  {
    if tasks == [] {
      return [];
    }
    if lastId.None? || lastId.value == "" || !HasId(tasks, lastId.value) {
      var latestId := GetLatestTaskId(tasks, byDate);
      if latestId.Some? && latestId.value != "" {
        var k := FindIndex(tasks, latestId.value);
        var best := LatestIndex(tasks, byDate).value;
        assert HasId(tasks, latestId.value) by { assert tasks[best].id == latestId.value; }
        assert k == best;
        newTasks := [tasks[k]];
      } else {
        newTasks := [];
      }
      return;
    }
    var sorted := SortedTasks(tasks, byDate);
    SortedHasId(tasks, byDate, lastId.value);
    var c := FindIndex(sorted, lastId.value);
    if c == -1 {
      // The source's `last_index == -1` branch: the cursor is a key of the store and sorting keeps every key.
      assert false;
    }
    newTasks := CollectFrom(sorted, c + 1);
  }

  /** The `for i in range(start, len(sorted_tasks))` loop that copies the postings after the cursor. */
  method CollectFrom(sorted: seq<Entry>, start: nat) returns (collected: seq<Entry>)
    requires start <= |sorted|
    ensures collected == sorted[start..]
  {
    collected := [];
    var i := start;
    while i < |sorted|
      invariant start <= i <= |sorted|
      invariant collected == sorted[start..i]
    {
      collected := collected + [sorted[i]];
      i := i + 1;
    }
  }

  // ---------------------------------------------------------------------------------------------
  // filter_task_for_user

  /** Some keyword occurs, ignoring case, in the description. */
  predicate KeywordHit(description: string, keywords: seq<string>) {
    exists i | 0 <= i < |keywords| :: Contains(Lower(description), Lower(keywords[i]))
  }

  /** The word the price text of a negotiable posting holds. */
  const NegotiatedMarker := "договоренности"

  /** `filter_task_for_user`: the keyword gate, then the price filters in their order. */
  predicate FilterTask(p: Posting, u: UserRow) {
    if u.keywords != [] && !KeywordHit(p.fullDescription, u.keywords) then false
    else if "any" in u.priceFilters then true
    else if "negotiated" in u.priceFilters && Contains(Lower(p.priceText), NegotiatedMarker) then true
    else if "min_price" in u.priceFilters && p.price >= u.priceMin then true
    else false
  }

  /** The price rule: the filters a posting can satisfy once the keyword gate is passed. */
  predicate PriceAccepts(p: Posting, u: UserRow) {
    "any" in u.priceFilters
    || ("negotiated" in u.priceFilters && Contains(Lower(p.priceText), NegotiatedMarker))
    || ("min_price" in u.priceFilters && p.price >= u.priceMin)
  }

  /** A posting passes iff the keyword gate and the price rule both accept it. */
  lemma FilterTaskSpec(p: Posting, u: UserRow)
    ensures u.keywords != [] && !KeywordHit(p.fullDescription, u.keywords) ==> !FilterTask(p, u)
    ensures FilterTask(p, u) <==> (u.keywords == [] || KeywordHit(p.fullDescription, u.keywords)) && PriceAccepts(p, u)
    ensures u.priceFilters == [] ==> !FilterTask(p, u)
  {
  }

  /** An empty keyword occurs in every description, so it lets every posting through the gate. */
  lemma EmptyKeywordMatchesAll(description: string, keywords: seq<string>)
    requires "" in keywords
    ensures KeywordHit(description, keywords)
  {
    var i :| 0 <= i < |keywords| && keywords[i] == "";
    assert OccursAt(Lower(description), Lower(keywords[i]), 0);
  }

  // ---------------------------------------------------------------------------------------------
  // process_task_for_notification

  /** The record the dispatcher sends for one posting. */
  datatype Notification = Notification(
    taskId: string,
    aiDescription: string,
    priceText: string,
    price: int,
    publicationDate: string,
    url: string)

  /** What the summariser answers for an empty description, without asking the model. */
  const NoDescription := "Описание задачи отсутствует"

  /** The summariser: a fixed answer for an empty description, the model's answer (or error text) otherwise. */
  function Summarise(description: string, model: string -> string): (r: string)
    ensures description == "" ==> r == NoDescription
    ensures description != "" ==> r == model(description)
  {
    if description == "" then NoDescription else model(description)
  }

  /** The notification built for one posting: its id and stored fields, and a summary of its description. */
  function Build(e: Entry, model: string -> string): (n: Notification)
    ensures n.taskId == e.id && n.url == e.posting.url && n.publicationDate == e.posting.publicationDate
    ensures n.price == e.posting.price && n.priceText == e.posting.priceText
    ensures n.aiDescription == Summarise(e.posting.fullDescription, model)
  {
    Notification(e.id, Summarise(e.posting.fullDescription, model), e.posting.priceText, e.posting.price,
                 e.posting.publicationDate, e.posting.url)
  }

  /** One notification per posting, in order. */
  function BuildAll(s: seq<Entry>, model: string -> string): (r: seq<Notification>)
    ensures |r| == |s|
    ensures forall i :: 0 <= i < |s| ==> r[i] == Build(s[i], model)
  {
    seq(|s|, i requires 0 <= i < |s| => Build(s[i], model))
  }

  lemma BuildAllAppend(s: seq<Entry>, e: Entry, model: string -> string)
    ensures BuildAll(s + [e], model) == BuildAll(s, model) + [Build(e, model)]
  {
    assert forall i :: 0 <= i < |s| ==> (s + [e])[i] == s[i];
  }

  // ---------------------------------------------------------------------------------------------
  // get_notifications_for_user

  /** The non-empty descriptions of the postings in `s`. */
  function Descriptions(s: seq<Entry>): set<string> {
    set i | 0 <= i < |s| && s[i].posting.fullDescription != "" :: s[i].posting.fullDescription
  }

  lemma DescriptionsAppend(s: seq<Entry>, e: Entry)
    ensures Descriptions(s + [e]) == Descriptions(s) + (if e.posting.fullDescription != "" then {e.posting.fullDescription} else {})
  {
    var t := s + [e];
    assert forall i :: 0 <= i < |s| ==> t[i] == s[i];
    assert t[|s|] == e;
  }

  /**
   * The steady-state loop over the postings after the cursor: a posting whose description was
   * already seen is skipped, one that passes the filter is reported and its non-empty description
   * is seen from then on.
   */
  function Announced(rest: seq<Entry>, seen: set<string>, u: UserRow): seq<Entry>
    decreases |rest|
  {
    if rest == [] then []
    else
      var e := rest[0];
      var d := e.posting.fullDescription;
      if d in seen then Announced(rest[1..], seen, u)
      else if FilterTask(e.posting, u) then [e] + Announced(rest[1..], if d != "" then seen + {d} else seen, u)
      else Announced(rest[1..], seen, u)
  }

  /** `a` lists some of the entries of `b`, in their order in `b`. */
  predicate InOrder(a: seq<Entry>, b: seq<Entry>)
    decreases |b|
  {
    if a == [] then true
    else if b == [] then false
    else (a[0] == b[0] && InOrder(a[1..], b[1..])) || InOrder(a, b[1..])
  }

  /** Everything in an ordered selection comes from the sequence it was selected from. */
  lemma {:induction false} InOrderMembers(a: seq<Entry>, b: seq<Entry>)
    requires InOrder(a, b)
    ensures forall e | e in a :: e in b
    decreases |b|
  {
    if a != [] {
      if a[0] == b[0] && InOrder(a[1..], b[1..]) {
        InOrderMembers(a[1..], b[1..]);
        forall e | e in a ensures e in b {
          if e != a[0] {
            assert e in a[1..];
          }
        }
      } else {
        InOrderMembers(a, b[1..]);
      }
    }
  }

  /** The steady-state loop reports postings in their sorted order. */
  lemma {:induction false} AnnouncedInOrder(rest: seq<Entry>, seen: set<string>, u: UserRow)
    ensures InOrder(Announced(rest, seen, u), rest)
    ensures forall e | e in Announced(rest, seen, u) :: e in rest
    decreases |rest|
  {
    if rest != [] {
      var h := rest[0];
      var d := h.posting.fullDescription;
      var next := if d != "" then seen + {d} else seen;
      AnnouncedInOrder(rest[1..], seen, u);
      AnnouncedInOrder(rest[1..], next, u);
      assert [h] + rest[1..] == rest;
      if d !in seen && FilterTask(h.posting, u) {
        var tail := Announced(rest[1..], next, u);
        assert ([h] + tail)[1..] == tail;
      }
    }
    InOrderMembers(Announced(rest, seen, u), rest);
  }

  /** Every reported posting passes the filter, and none repeats a description seen before the loop. */
  lemma {:induction false} AnnouncedPass(rest: seq<Entry>, seen: set<string>, u: UserRow)
    ensures forall e | e in Announced(rest, seen, u) :: FilterTask(e.posting, u) && e.posting.fullDescription !in seen
    decreases |rest|
  {
    if rest != [] {
      var d := rest[0].posting.fullDescription;
      var next := if d != "" then seen + {d} else seen;
      AnnouncedPass(rest[1..], seen, u);
      AnnouncedPass(rest[1..], next, u);
    }
  }

  /** No two postings of `a` share a non-empty description. */
  predicate DistinctDescriptions(a: seq<Entry>) {
    forall i, j :: 0 <= i < j < |a| && a[i].posting.fullDescription != "" ==>
      a[i].posting.fullDescription != a[j].posting.fullDescription
  }

  /** No two reported postings share a non-empty description. */
  lemma {:induction false} AnnouncedDistinct(rest: seq<Entry>, seen: set<string>, u: UserRow)
    ensures DistinctDescriptions(Announced(rest, seen, u))
    decreases |rest|
  {
    if rest != [] {
      var e := rest[0];
      var d := e.posting.fullDescription;
      var next := if d != "" then seen + {d} else seen;
      AnnouncedDistinct(rest[1..], seen, u);
      AnnouncedDistinct(rest[1..], next, u);
      if d !in seen && FilterTask(e.posting, u) {
        var tail := Announced(rest[1..], next, u);
        AnnouncedPass(rest[1..], next, u);
        assert Announced(rest, seen, u) == [e] + tail;
        forall j | 0 <= j < |tail| && d != "" ensures tail[j].posting.fullDescription != d {
          assert tail[j] in tail;
        }
        var a := [e] + tail;
        forall i, j | 0 <= i < j < |a| && a[i].posting.fullDescription != ""
          ensures a[i].posting.fullDescription != a[j].posting.fullDescription
        {
          assert a[j] == tail[j - 1];
          if i > 0 {
            assert a[i] == tail[i - 1];
            assert tail[i - 1].posting.fullDescription != tail[j - 1].posting.fullDescription;
          }
        }
      }
    }
  }

  /** A posting with an empty description is never suppressed: it is reported whenever it passes the filter. */
  lemma {:induction false} AnnouncedBlank(rest: seq<Entry>, seen: set<string>, u: UserRow)
    requires "" !in seen
    ensures forall e | e in rest && e.posting.fullDescription == "" && FilterTask(e.posting, u) ::
      e in Announced(rest, seen, u)
    decreases |rest|
  {
    if rest != [] {
      var d := rest[0].posting.fullDescription;
      var next := if d != "" then seen + {d} else seen;
      AnnouncedBlank(rest[1..], seen, u);
      AnnouncedBlank(rest[1..], next, u);
      forall e | e in rest && e.posting.fullDescription == "" && FilterTask(e.posting, u)
        ensures e in Announced(rest, seen, u)
      {
        if e != rest[0] {
          assert e in rest[1..];
        }
      }
    }
  }

  lemma DescriptionsCons(e: Entry, s: seq<Entry>)
    ensures Descriptions([e] + s) == Descriptions([e]) + Descriptions(s)
  {
    var t := [e] + s;
    assert forall i :: 0 <= i < |s| ==> t[i + 1] == s[i];
    forall d | d in Descriptions(t) ensures d in Descriptions([e]) + Descriptions(s) {
      var i :| 0 <= i < |t| && t[i].posting.fullDescription != "" && t[i].posting.fullDescription == d;
      if i > 0 {
        assert s[i - 1].posting.fullDescription == d;
      }
    }
    forall d | d in Descriptions([e]) + Descriptions(s) ensures d in Descriptions(t) {
      if d in Descriptions(s) {
        var i :| 0 <= i < |s| && s[i].posting.fullDescription != "" && s[i].posting.fullDescription == d;
        assert t[i + 1] == s[i];
      } else {
        assert [e][0] == e && t[0] == e;
      }
    }
  }

  /**
   * Conversely, a posting that passes the filter but is not reported was suppressed: its
   * description was seen before the loop or belongs to a posting reported earlier.
   */
  lemma {:induction false} AnnouncedComplete(rest: seq<Entry>, seen: set<string>, u: UserRow)
    ensures forall e | e in rest && FilterTask(e.posting, u) ::
      e in Announced(rest, seen, u) || e.posting.fullDescription in seen
      || e.posting.fullDescription in Descriptions(Announced(rest, seen, u))
    decreases |rest|
  {
    if rest != [] {
      var h := rest[0];
      var d := h.posting.fullDescription;
      var next := if d != "" then seen + {d} else seen;
      AnnouncedComplete(rest[1..], seen, u);
      AnnouncedComplete(rest[1..], next, u);
      var a := Announced(rest, seen, u);
      if d !in seen && FilterTask(h.posting, u) {
        var tail := Announced(rest[1..], next, u);
        assert a == [h] + tail;
        DescriptionsCons(h, tail);
        assert d != "" ==> d in Descriptions([h]) by {
          assert [h][0] == h;
        }
        forall e | e in rest && FilterTask(e.posting, u)
          ensures e in a || e.posting.fullDescription in seen || e.posting.fullDescription in Descriptions(a)
        {
          if e != h {
            assert e in rest[1..];
          }
        }
      } else {
        forall e | e in rest && FilterTask(e.posting, u)
          ensures e in a || e.posting.fullDescription in seen || e.posting.fullDescription in Descriptions(a)
        {
          if e != h {
            assert e in rest[1..];
          }
        }
      }
    }
  }

  /** What `get_notifications_for_user` returns for the settings of one subscriber. */
  function Notifications(settings: Option<UserRow>, tasks: seq<Entry>, key: Entry -> int, model: string -> string): seq<Notification> {
    if settings.None? || tasks == [] then []
    else if CursorMissing(tasks, settings.value.lastSentId) then FirstRunNotes(settings.value, tasks, key, model)
    else SteadyNotes(settings.value, tasks, key, model)
  }

  /** Without a usable cursor: the latest posting by date, if it passes the filter. */
  function FirstRunNotes(u: UserRow, tasks: seq<Entry>, key: Entry -> int, model: string -> string): seq<Notification>
    requires tasks != []
  {
    var sorted := SortedTasks(tasks, key);
    var last := sorted[|sorted| - 1];
    if FilterTask(last.posting, u) then [Build(last, model)] else []
  }

  /** With a cursor the store holds: the postings after it in date order, announced. */
  function SteadyNotes(u: UserRow, tasks: seq<Entry>, key: Entry -> int, model: string -> string): seq<Notification>
    requires tasks != [] && !CursorMissing(tasks, u.lastSentId)
  {
    var sorted := SortedTasks(tasks, key);
    SortedHasId(tasks, key, u.lastSentId.value);
    var c := Position(sorted, u.lastSentId.value);
    BuildAll(Announced(sorted[c + 1..], Descriptions(sorted[..c + 1]), u), model)
  }

  /**
   * First run (no cursor, or one the store no longer holds): exactly the posting `sorted_tasks[-1]`
   * is considered, and it is announced if and only if it passes the filter. That posting is the
   * last one in store order among those with the greatest date key, since the sort is stable.
   */
  lemma NotificationsFirstRun(settings: Option<UserRow>, tasks: seq<Entry>, key: Entry -> int, model: string -> string)
    requires settings.Some? && tasks != [] && CursorMissing(tasks, settings.value.lastSentId)
    ensures |Notifications(settings, tasks, key, model)| <= 1
    ensures Notifications(settings, tasks, key, model) != [] ==>
      exists e :: e in tasks && FilterTask(e.posting, settings.value)
        && (forall t | t in tasks :: key(t) <= key(e))
        && Notifications(settings, tasks, key, model) == [Build(e, model)]
    ensures var s := SortedTasks(tasks, key);
      Notifications(settings, tasks, key, model) ==
        if FilterTask(s[|s| - 1].posting, settings.value) then [Build(s[|s| - 1], model)] else []
    ensures exists k ::
      && LastMax(tasks, key, k)
      && Notifications(settings, tasks, key, model) ==
           (if FilterTask(tasks[k].posting, settings.value) then [Build(tasks[k], model)] else [])
  {
    var sorted := SortedTasks(tasks, key);
    var last := sorted[|sorted| - 1];
    var notes := Notifications(settings, tasks, key, model);
    assert notes == FirstRunNotes(settings.value, tasks, key, model);
    var k := SortLastAt(tasks, key);
    assert last == tasks[k];
    assert notes == if FilterTask(tasks[k].posting, settings.value) then [Build(tasks[k], model)] else [];
    forall t | t in tasks ensures key(t) <= key(last) {
      var j :| 0 <= j < |tasks| && tasks[j] == t;
    }
  }

  /**
   * Steady state: the notifications are built from postings after the cursor in the sorted order,
   * in that order; each is a posting of the store other than the cursor, passes the filter, and no
   * two share a non-empty description.
   */
  lemma NotificationsSteady(settings: Option<UserRow>, tasks: seq<Entry>, key: Entry -> int, model: string -> string)
    requires settings.Some? && tasks != [] && !CursorMissing(tasks, settings.value.lastSentId)
    requires UniqueIds(tasks)
    ensures exists a ::
              && Notifications(settings, tasks, key, model) == BuildAll(a, model)
              && InOrder(a, NewTasks(tasks, settings.value.lastSentId, key))
              && DistinctDescriptions(a)
              && (forall e | e in a :: e in tasks && e.id != settings.value.lastSentId.value && FilterTask(e.posting, settings.value))
  {
    var u := settings.value;
    var cursor := u.lastSentId.value;
    var c := NotificationsAt(u, tasks, key, model);
    var sorted := SortedTasks(tasks, key);
    var rest := sorted[c + 1..];
    var seen := Descriptions(sorted[..c + 1]);
    var a := Announced(rest, seen, u);
    assert NewTasks(tasks, u.lastSentId, key) == rest;
    NewTasksAfterCursor(tasks, cursor, key);
    AnnouncedInOrder(rest, seen, u);
    AnnouncedDistinct(rest, seen, u);
    AnnouncedPass(rest, seen, u);
  }

  /** Every notification is built from a posting of the store. */
  lemma NotesDrawnFromStore(row: UserRow, tasks: seq<Entry>, key: Entry -> int, model: string -> string)
    ensures forall k | 0 <= k < |Notifications(Some(row), tasks, key, model)| ::
      HasId(tasks, Notifications(Some(row), tasks, key, model)[k].taskId)
  {
    if tasks != [] {
      if CursorMissing(tasks, row.lastSentId) {
        FirstRunDrawnFromStore(row, tasks, key, model);
      } else {
        SteadyDrawnFromStore(row, tasks, key, model);
      }
    }
  }

  /** The first run's notification is built from a posting of the store. */
  lemma FirstRunDrawnFromStore(row: UserRow, tasks: seq<Entry>, key: Entry -> int, model: string -> string)
    requires tasks != [] && CursorMissing(tasks, row.lastSentId)
    ensures forall k | 0 <= k < |Notifications(Some(row), tasks, key, model)| ::
      HasId(tasks, Notifications(Some(row), tasks, key, model)[k].taskId)
  {
    var notes := Notifications(Some(row), tasks, key, model);
    var sorted := SortedTasks(tasks, key);
    var last := sorted[|sorted| - 1];
    assert last in multiset(tasks);
    if notes != [] {
      MemberHasId(tasks, last);
      assert notes[0].taskId == last.id;
    }
  }

  /** In steady state every notification is built from a posting of the store. */
  lemma SteadyDrawnFromStore(row: UserRow, tasks: seq<Entry>, key: Entry -> int, model: string -> string)
    requires tasks != [] && !CursorMissing(tasks, row.lastSentId)
    ensures forall k | 0 <= k < |Notifications(Some(row), tasks, key, model)| ::
      HasId(tasks, Notifications(Some(row), tasks, key, model)[k].taskId)
  {
    var notes := Notifications(Some(row), tasks, key, model);
    var sorted := SortedTasks(tasks, key);
    SortedHasId(tasks, key, row.lastSentId.value);
    var c := Position(sorted, row.lastSentId.value);
    var rest := sorted[c + 1..];
    var seen := Descriptions(sorted[..c + 1]);
    var a := Announced(rest, seen, row);
    AnnouncedInOrder(rest, seen, row);
    assert notes == BuildAll(a, model);
    forall k | 0 <= k < |notes| ensures HasId(tasks, notes[k].taskId) {
      assert a[k] in rest;
      assert a[k] in multiset(tasks);
      MemberHasId(tasks, a[k]);
    }
  }

  /** Announcing a concatenation announces the first part, then the second with its descriptions seen. */
  lemma {:induction false} AnnouncedSplit(x: seq<Entry>, y: seq<Entry>, seen: set<string>, u: UserRow)
    ensures Announced(x + y, seen, u)
         == Announced(x, seen, u) + Announced(y, seen + Descriptions(Announced(x, seen, u)), u)
    decreases |x|
  {
    if x == [] {
      assert x + y == y;
      assert Announced(x, seen, u) == [];
      assert Descriptions(Announced(x, seen, u)) == {};
      assert Announced(x + y, seen, u) == Announced(y, seen, u);
      assert seen + Descriptions(Announced(x, seen, u)) == seen;
    } else {
      var h := x[0];
      var d := h.posting.fullDescription;
      var next := if d != "" then seen + {d} else seen;
      assert (x + y)[0] == h && (x + y)[1..] == x[1..] + y;
      if d !in seen && FilterTask(h.posting, u) {
        AnnouncedSplit(x[1..], y, next, u);
        var tail := Announced(x[1..], next, u);
        var later := Announced(y, next + Descriptions(tail), u);
        DescriptionsCons(h, tail);
        assert [h][0] == h;
        assert Descriptions([h]) == if d != "" then {d} else {};
        assert seen + Descriptions([h] + tail) == next + Descriptions(tail);
        assert Announced(x + y, seen, u) == [h] + Announced(x[1..] + y, next, u);
        assert ([h] + tail) + later == [h] + (tail + later);
      } else {
        AnnouncedSplit(x[1..], y, seen, u);
        assert Announced(x + y, seen, u) == Announced(x[1..] + y, seen, u);
      }
    }
  }

  /** Nothing is announced iff every posting that passes the filter has a description already seen. */
  lemma {:induction false} AnnouncedNone(y: seq<Entry>, seen: set<string>, u: UserRow)
    ensures Announced(y, seen, u) == []
        <==> forall e | e in y && FilterTask(e.posting, u) :: e.posting.fullDescription in seen
    decreases |y|
  {
    if y != [] {
      AnnouncedNone(y[1..], seen, u);
      assert y == [y[0]] + y[1..];
    }
  }

  /** The descriptions of a part are among the descriptions of the whole. */
  lemma DescriptionsSub(a: seq<Entry>, b: seq<Entry>)
    requires forall e | e in a :: e in b
    ensures Descriptions(a) <= Descriptions(b)
  {
    forall d | d in Descriptions(a) ensures d in Descriptions(b) {
      var i :| 0 <= i < |a| && a[i].posting.fullDescription != "" && a[i].posting.fullDescription == d;
      assert a[i] in b;
      var j :| 0 <= j < |b| && b[j] == a[i];
    }
  }

  /**
   * In the sorted order, the last posting announced after position `c` sits at some `cp`, and
   * announcing after `cp`, with everything up to it seen, gives nothing.
   */
  lemma QuietAfterLast(sorted: seq<Entry>, c: nat, u: UserRow) returns (cp: nat)
    requires UniqueIds(sorted) && c < |sorted|
    requires Announced(sorted[c + 1..], Descriptions(sorted[..c + 1]), u) != []
    ensures var a := Announced(sorted[c + 1..], Descriptions(sorted[..c + 1]), u);
      c < cp < |sorted| && sorted[cp] == a[|a| - 1]
    ensures Announced(sorted[cp + 1..], Descriptions(sorted[..cp + 1]), u) == []
  {
    var rest := sorted[c + 1..];
    var m := LastAnnouncedIn(rest, Descriptions(sorted[..c + 1]), u);
    cp := c + 1 + m;
    assert rest[m] == sorted[cp];
    QuietAfterAt(sorted, c, cp, u);
  }

  /** Once the last announced posting at `cp` is the cursor, nothing after it is announced. */
  lemma QuietAfterAt(sorted: seq<Entry>, c: nat, cp: nat, u: UserRow)
    requires UniqueIds(sorted) && c < cp < |sorted|
    requires var a := Announced(sorted[c + 1..], Descriptions(sorted[..c + 1]), u);
      a != [] && sorted[cp] == a[|a| - 1]
    ensures Announced(sorted[cp + 1..], Descriptions(sorted[..cp + 1]), u) == []
  {
    var rest := sorted[c + 1..];
    var seen := Descriptions(sorted[..c + 1]);
    var x := sorted[c + 1..cp + 1];
    var y := sorted[cp + 1..];
    assert rest == x + y;
    AnnouncedSplit(x, y, seen, u);
    var ax := Announced(x, seen, u);
    var s := seen + Descriptions(ax);
    LastAnnouncedAt(sorted, cp, ax, s, u);
    AnnouncedInOrder(x, seen, u);
    SeenUpTo(sorted, c, cp, x, ax);
    AnnouncedMoreSeen(y, s, Descriptions(sorted[..cp + 1]), u);
  }

  /** Where the last announced posting sits. */
  lemma LastAnnouncedIn(rest: seq<Entry>, seen: set<string>, u: UserRow) returns (m: nat)
    requires Announced(rest, seen, u) != []
    ensures var a := Announced(rest, seen, u);
      m < |rest| && rest[m] == a[|a| - 1]
  {
    var a := Announced(rest, seen, u);
    AnnouncedInOrder(rest, seen, u);
    assert a[|a| - 1] in rest;
    m :| 0 <= m < |rest| && rest[m] == a[|a| - 1];
  }

  /** Seeing more descriptions never makes an empty announcement non-empty. */
  lemma AnnouncedMoreSeen(y: seq<Entry>, s: set<string>, t: set<string>, u: UserRow)
    requires s <= t && Announced(y, s, u) == []
    ensures Announced(y, t, u) == []
  {
    AnnouncedNone(y, s, u);
    AnnouncedNone(y, t, u);
  }

  /** The announcement depends on the settings only through the filter's columns. */
  lemma {:induction false} AnnouncedSameFilter(rest: seq<Entry>, seen: set<string>, u: UserRow, v: UserRow)
    requires v.keywords == u.keywords && v.priceFilters == u.priceFilters && v.priceMin == u.priceMin
    ensures Announced(rest, seen, u) == Announced(rest, seen, v)
    decreases |rest|
  {
    if rest != [] {
      var d := rest[0].posting.fullDescription;
      AnnouncedSameFilter(rest[1..], seen, u, v);
      AnnouncedSameFilter(rest[1..], if d != "" then seen + {d} else seen, u, v);
      assert FilterTask(rest[0].posting, u) == FilterTask(rest[0].posting, v);
    }
  }

  /** Nothing is announced after the position holding the last announced posting: its id would repeat. */
  lemma LastAnnouncedAt(sorted: seq<Entry>, cp: nat, ax: seq<Entry>, s: set<string>, u: UserRow)
    requires UniqueIds(sorted) && cp < |sorted|
    requires ax + Announced(sorted[cp + 1..], s, u) != []
    requires var a := ax + Announced(sorted[cp + 1..], s, u); a[|a| - 1] == sorted[cp]
    ensures Announced(sorted[cp + 1..], s, u) == []
  {
    var y := sorted[cp + 1..];
    var ay := Announced(y, s, u);
    assert sorted[cp] !in y by {
      forall n | 0 <= n < |y| ensures y[n] != sorted[cp] {
        assert y[n] == sorted[cp + 1 + n];
      }
    }
    AnnouncedInOrder(y, s, u);
  }

  /** What was seen before `c`, and what was announced from `x`, is seen once everything up to `cp` is. */
  lemma SeenUpTo(sorted: seq<Entry>, c: nat, cp: nat, x: seq<Entry>, ax: seq<Entry>)
    requires c < cp < |sorted| && x == sorted[c + 1..cp + 1]
    requires forall e | e in ax :: e in x
    ensures Descriptions(sorted[..c + 1]) + Descriptions(ax) <= Descriptions(sorted[..cp + 1])
  {
    var prefix := sorted[..cp + 1];
    forall e | e in sorted[..c + 1] ensures e in prefix {
      var i :| 0 <= i < c + 1 && sorted[..c + 1][i] == e;
      assert prefix[i] == e;
    }
    DescriptionsSub(sorted[..c + 1], prefix);
    forall e | e in ax ensures e in prefix {
      var i :| 0 <= i < |x| && x[i] == e;
      assert prefix[c + 1 + i] == e;
    }
    DescriptionsSub(ax, prefix);
  }

  /**
   * Advancing the cursor to the last notification leaves nothing to report over the same store,
   * when the store's ids are unique and not empty.
   */
  lemma QuietAfterCursor(row: UserRow, tasks: seq<Entry>, key: Entry -> int, model: string -> string)
    requires UniqueIds(tasks) && forall i :: 0 <= i < |tasks| ==> tasks[i].id != ""
    requires Notifications(Some(row), tasks, key, model) != []
    ensures var notes := Notifications(Some(row), tasks, key, model);
      Notifications(Some(row.(lastSentId := Some(notes[|notes| - 1].taskId))), tasks, key, model) == []
  {
    var notes := Notifications(Some(row), tasks, key, model);
    var lastId := notes[|notes| - 1].taskId;
    NotesDrawnFromStore(row, tasks, key, model);
    assert HasId(tasks, lastId);
    assert lastId != "" by {
      var i :| 0 <= i < |tasks| && tasks[i].id == lastId;
    }
    if CursorMissing(tasks, row.lastSentId) {
      QuietFirstRun(row, tasks, key, model, lastId);
    } else {
      var c := NotificationsAt(row, tasks, key, model);
      var sorted := SortedTasks(tasks, key);
      var a := Announced(sorted[c + 1..], Descriptions(sorted[..c + 1]), row);
      assert notes == BuildAll(a, model);
      var cp := NextCursorAt(row, tasks, key, c);
      QuietAt(row.(lastSentId := Some(lastId)), tasks, key, model, cp);
    }
  }

  /** The first run's single notification is for the last posting of the sorted order. */
  lemma QuietFirstRun(row: UserRow, tasks: seq<Entry>, key: Entry -> int, model: string -> string, lastId: string)
    requires UniqueIds(tasks) && tasks != [] && CursorMissing(tasks, row.lastSentId)
    requires lastId != "" && HasId(tasks, lastId)
    requires var notes := Notifications(Some(row), tasks, key, model);
      notes != [] && notes[|notes| - 1].taskId == lastId
    ensures Notifications(Some(row.(lastSentId := Some(lastId))), tasks, key, model) == []
  {
    var sorted := SortedTasks(tasks, key);
    SortedUnique(tasks, key);
    SortedHasId(tasks, key, lastId);
    var c2 := Position(sorted, lastId);
    assert lastId == sorted[|sorted| - 1].id;
    assert c2 == |sorted| - 1;
    assert sorted[c2 + 1..] == [];
  }

  /**
   * Where the cursor lands when it moves to the last posting announced after position `c`: a
   * position of the store's sorted order after which nothing is announced.
   */
  lemma NextCursorAt(row: UserRow, tasks: seq<Entry>, key: Entry -> int, c: nat) returns (cp: nat)
    requires UniqueIds(tasks) && (forall i :: 0 <= i < |tasks| ==> tasks[i].id != "") && tasks != []
    requires c < |SortedTasks(tasks, key)|
    requires var sorted := SortedTasks(tasks, key);
      Announced(sorted[c + 1..], Descriptions(sorted[..c + 1]), row) != []
    ensures var sorted := SortedTasks(tasks, key);
      var a := Announced(sorted[c + 1..], Descriptions(sorted[..c + 1]), row);
      var v := row.(lastSentId := Some(a[|a| - 1].id));
      && !CursorMissing(tasks, v.lastSentId)
      && cp < |sorted| && sorted[cp].id == v.lastSentId.value
      && Position(sorted, v.lastSentId.value) == cp
      && Announced(sorted[cp + 1..], Descriptions(sorted[..cp + 1]), v) == []
  {
    var sorted := SortedTasks(tasks, key);
    var a := Announced(sorted[c + 1..], Descriptions(sorted[..c + 1]), row);
    var v := row.(lastSentId := Some(a[|a| - 1].id));
    SortedUnique(tasks, key);
    cp := QuietAfterLast(sorted, c, row);
    AnnouncedSameFilter(sorted[cp + 1..], Descriptions(sorted[..cp + 1]), row, v);
    PositionUnique(sorted, cp);
    SortedEntryStored(tasks, key, cp);
  }

  /** Every posting of the sorted list is a posting of the store, so its id is a cursor the store holds. */
  lemma SortedEntryStored(tasks: seq<Entry>, key: Entry -> int, k: nat)
    requires forall i :: 0 <= i < |tasks| ==> tasks[i].id != ""
    requires k < |SortedTasks(tasks, key)|
    ensures !CursorMissing(tasks, Some(SortedTasks(tasks, key)[k].id))
  {
    var e := SortedTasks(tasks, key)[k];
    assert e in multiset(SortedTasks(tasks, key));
    var i :| 0 <= i < |tasks| && tasks[i] == e;
  }

  /** Nothing is announced after the cursor's position, so there is nothing to report. */
  lemma QuietAt(v: UserRow, tasks: seq<Entry>, key: Entry -> int, model: string -> string, cp: nat)
    requires tasks != [] && !CursorMissing(tasks, v.lastSentId)
    requires cp < |SortedTasks(tasks, key)| && SortedTasks(tasks, key)[cp].id == v.lastSentId.value
    requires Position(SortedTasks(tasks, key), v.lastSentId.value) == cp
    requires var sorted := SortedTasks(tasks, key);
      Announced(sorted[cp + 1..], Descriptions(sorted[..cp + 1]), v) == []
    ensures Notifications(Some(v), tasks, key, model) == []
  {
    var sorted := SortedTasks(tasks, key);
    var c2 := NotificationsAt(v, tasks, key, model);
    var none := Announced(sorted[cp + 1..], Descriptions(sorted[..cp + 1]), v);
    assert Notifications(Some(v), tasks, key, model) == BuildAll(none, model);
  }

  /** With ids unique, the first position of the id at `k` is `k`. */
  lemma PositionUnique(s: seq<Entry>, k: nat)
    requires UniqueIds(s) && k < |s|
    ensures HasId(s, s[k].id) && Position(s, s[k].id) == k
  {
  }

  lemma NotificationsAt(u: UserRow, tasks: seq<Entry>, key: Entry -> int, model: string -> string) returns (c: nat)
    requires tasks != [] && !CursorMissing(tasks, u.lastSentId)
    ensures HasId(SortedTasks(tasks, key), u.lastSentId.value)
    ensures c == Position(SortedTasks(tasks, key), u.lastSentId.value)
    ensures var sorted := SortedTasks(tasks, key);
      Notifications(Some(u), tasks, key, model) == BuildAll(Announced(sorted[c + 1..], Descriptions(sorted[..c + 1]), u), model)
  {
    var sorted := SortedTasks(tasks, key);
    SortedHasId(tasks, key, u.lastSentId.value);
    c := Position(sorted, u.lastSentId.value);
    assert Notifications(Some(u), tasks, key, model) == SteadyNotes(u, tasks, key, model);
  }

  /** The reconciler, step by step as the source runs it. */
  method GetNotificationsForUser(settings: Option<UserRow>, tasks: seq<Entry>, byDate: Entry -> int, model: string -> string)
    returns (notes: seq<Notification>)
    ensures notes == Notifications(settings, tasks, byDate, model)
  {
    if settings.None? {
      return [];
    }
    var u := settings.value;
    notes := [];
    var lastSentId := u.lastSentId;
    var seen: set<string> := {};
    if tasks == [] {
      return [];
    }
    var firstRun := lastSentId.None? || lastSentId.value == "" || !HasId(tasks, lastSentId.value);
    var sorted := SortedTasks(tasks, byDate);
    if firstRun {
      var last := sorted[|sorted| - 1];
      if FilterTask(last.posting, u) {
        notes := [Build(last, model)];
      }
      return;
    }
    SortedHasId(tasks, byDate, lastSentId.value);
    var c := FindIndex(sorted, lastSentId.value);
    if c == -1 {
      // The source's `last_index == -1` branch: the cursor is a key of the store and sorting keeps every key.
      assert false;
    }
    seen := SeenDescriptions(sorted, c + 1);
    notes := AnnounceFrom(sorted, c + 1, seen, u, model);
  }

  /** The `for i in range(last_index + 1)` loop that collects the descriptions up to the cursor. */
  method SeenDescriptions(sorted: seq<Entry>, upto: nat) returns (seen: set<string>)
    requires upto <= |sorted|
    ensures seen == Descriptions(sorted[..upto])
  {
    seen := {};
    var i := 0;
    while i < upto
      invariant 0 <= i <= upto
      invariant seen == Descriptions(sorted[..i])
    {
      assert sorted[..i + 1] == sorted[..i] + [sorted[i]];
      DescriptionsAppend(sorted[..i], sorted[i]);
      var description := sorted[i].posting.fullDescription;
      if description != "" {
        seen := seen + {description};
      }
      i := i + 1;
    }
  }

  /** One step of the steady-state loop, as `Announced` takes it. */
  lemma AnnouncedStep(announced: seq<Entry>, sorted: seq<Entry>, i: nat, seen: set<string>, u: UserRow)
    requires i < |sorted|
    ensures var e := sorted[i];
      var d := e.posting.fullDescription;
      if d !in seen && FilterTask(e.posting, u) then
        (announced + [e]) + Announced(sorted[i + 1..], if d != "" then seen + {d} else seen, u)
        == announced + Announced(sorted[i..], seen, u)
      else
        announced + Announced(sorted[i + 1..], seen, u) == announced + Announced(sorted[i..], seen, u)
  {
    assert sorted[i..][1..] == sorted[i + 1..];
    var e := sorted[i];
    var d := e.posting.fullDescription;
    if d !in seen && FilterTask(e.posting, u) {
      var tail := Announced(sorted[i + 1..], if d != "" then seen + {d} else seen, u);
      assert Announced(sorted[i..], seen, u) == [e] + tail;
      assert (announced + [e]) + tail == announced + ([e] + tail);
    }
  }

  /** The steady-state loop over the postings after the cursor. */
  method AnnounceFrom(sorted: seq<Entry>, start: nat, seen0: set<string>, u: UserRow, model: string -> string)
    returns (notes: seq<Notification>)
    requires start <= |sorted|
    ensures notes == BuildAll(Announced(sorted[start..], seen0, u), model)
  {
    notes := [];
    var seen := seen0;
    ghost var announced: seq<Entry> := [];
    var i := start;
    while i < |sorted|
      invariant start <= i <= |sorted|
      invariant announced + Announced(sorted[i..], seen, u) == Announced(sorted[start..], seen0, u)
      invariant notes == BuildAll(announced, model)
    {
      var e := sorted[i];
      var description := e.posting.fullDescription;
      AnnouncedStep(announced, sorted, i, seen, u);
      if description !in seen && FilterTask(e.posting, u) {
        BuildAllAppend(announced, e, model);
        notes := notes + [Build(e, model)];
        announced := announced + [e];
        if description != "" {
          seen := seen + {description};
        }
      }
      i := i + 1;
    }
    assert announced == Announced(sorted[start..], seen0, u);
  }
}
