/**
 * The notifier bot: the dispatch pass that sends each subscriber the notifications the reconciler
 * computes and moves their cursor, the cursor seeding when a user starts or enables notifications,
 * and the settings dialogs (keywords, price filters, minimum price) with the texts they show.
 * Sending a message is recorded as an attempt; whether Telegram delivers it has no effect on the
 * store.
 */
module NotifyBot {
  import opened Options
  import opened Strings
  import opened Numerals
  import opened Postings
  import opened Subscribers
  import opened TaskProcessing

  // ---------------------------------------------------------------------------------------------
  // Keywords

  /** The stripped pieces that are not blank, in order. */
  function KeepKeywords(parts: seq<string>): seq<string> {
    if parts == [] then []
    else (if Strip(parts[0]) != "" then [Strip(parts[0])] else []) + KeepKeywords(parts[1..])
  }

  /** The keyword list typed as comma-separated text. */
  function ParseKeywords(text: string): seq<string> {
    KeepKeywords(Split(text, ','))
  }

  /** A keyword as the parser produces it: not empty, already stripped, without a comma. */
  predicate CleanKeyword(k: string) {
    k != "" && Strip(k) == k && ',' !in k
  }

  /** Every character of `strip(s)` comes from `s`. */
  lemma StripChars(s: string)
    ensures forall i :: 0 <= i < |Strip(s)| ==> Strip(s)[i] in s
  {
    TrimEndSpec(s);
    var e := TrimEnd(s);
    TrimStartSpec(e);
    var r := TrimStart(e);
    forall i | 0 <= i < |r| ensures r[i] in s {
      assert r[i] == e[|e| - |r| + i];
      assert e[|e| - |r| + i] == s[|e| - |r| + i];
    }
  }

  /** `strip` is idempotent. */
  lemma StripStrip(s: string)
    ensures Strip(Strip(s)) == Strip(s)
  {
    StripSpec(s);
    StripUnchanged(Strip(s));
  }

  /** The parsed keywords are clean. */
  lemma {:induction false} KeepKeywordsClean(parts: seq<string>)
    requires forall i :: 0 <= i < |parts| ==> ',' !in parts[i]
    ensures forall i :: 0 <= i < |KeepKeywords(parts)| ==> CleanKeyword(KeepKeywords(parts)[i])
  {
    if parts != [] {
      KeepKeywordsClean(parts[1..]);
      StripStrip(parts[0]);
      StripChars(parts[0]);
      var head := if Strip(parts[0]) != "" then [Strip(parts[0])] else [];
      var r := KeepKeywords(parts);
      assert r == head + KeepKeywords(parts[1..]);
      forall i | 0 <= i < |r| ensures CleanKeyword(r[i]) {
        if i >= |head| {
          assert r[i] == KeepKeywords(parts[1..])[i - |head|];
        }
      }
    }
  }

  /** Keywords typed as text are clean. */
  lemma ParseKeywordsClean(text: string)
    ensures forall i :: 0 <= i < |ParseKeywords(text)| ==> CleanKeyword(ParseKeywords(text)[i])
  {
    KeepKeywordsClean(Split(text, ','));
  }

  /** The list `", ".join(ks)` splits into: the first keyword, then each later one behind a blank. */
  function Spaced(ks: seq<string>): (r: seq<string>)
    ensures |r| == |ks|
  {
    if ks == [] then [] else [ks[0]] + Blanked(ks[1..])
  }

  /** The later keywords each behind a blank. */
  function Blanked(ks: seq<string>): (r: seq<string>)
    ensures |r| == |ks|
    ensures forall i :: 0 <= i < |ks| ==> r[i] == " " + ks[i]
  {
    seq(|ks|, i requires 0 <= i < |ks| => " " + ks[i])
  }

  lemma {:induction false} JoinSpaced(ks: seq<string>)
    ensures Join(ks, ", ") == Join(Spaced(ks), ",")
    decreases |ks|
  {
    if |ks| > 1 {
      JoinSpaced(ks[1..]);
      var c := Blanked(ks[2..]);
      BlankedCons(ks[1..]);
      assert ks[1..][1..] == ks[2..];
      assert Spaced(ks) == [ks[0]] + ([" " + ks[1]] + c);
      assert Spaced(ks[1..]) == [ks[1]] + c;
      JoinSpacedStep(ks[0], ks[1], c);
      JoinCons(ks[0], ks[1..], ", ");
      assert [ks[0]] + ks[1..] == ks;
    }
  }

  lemma BlankedCons(ks: seq<string>)
    requires ks != []
    ensures Blanked(ks) == [" " + ks[0]] + Blanked(ks[1..])
  {
    var r := [" " + ks[0]] + Blanked(ks[1..]);
    forall i | 0 <= i < |ks| ensures r[i] == " " + ks[i] {
      if i > 0 {
        assert r[i] == Blanked(ks[1..])[i - 1];
      }
    }
  }

  lemma JoinSpacedStep(k0: string, k1: string, c: seq<string>)
    ensures Join([k0] + ([" " + k1] + c), ",") == k0 + ", " + Join([k1] + c, ",")
  {
    JoinCons(k0, [" " + k1] + c, ",");
    JoinHeadBlank(k1, c, ",");
    CommaBlank(k0, Join([k1] + c, ","));
  }

  lemma CommaBlank(h: string, x: string)
    ensures h + "," + (" " + x) == h + ", " + x
  {
  }

  lemma JoinHeadBlank(h: string, c: seq<string>, sep: string)
    ensures Join([" " + h] + c, sep) == " " + Join([h] + c, sep)
  {
    JoinCons(" " + h, c, sep);
    JoinCons(h, c, sep);
  }

  /** Putting one more piece in front. */
  lemma JoinCons(head: string, tail: seq<string>, sep: string)
    ensures Join([head] + tail, sep) == if tail == [] then head else head + sep + Join(tail, sep)
  {
    assert ([head] + tail)[1..] == tail;
  }

  /** Clean keywords the menu shows joined by `", "` parse back to the same list. */
  lemma {:induction false} ParseKeywordsJoin(ks: seq<string>)
    requires forall i :: 0 <= i < |ks| ==> CleanKeyword(ks[i])
    ensures ParseKeywords(Join(ks, ", ")) == ks
  {
    JoinSpaced(ks);
    if ks == [] {
      StripBlank("");
    } else {
      var sp := Spaced(ks);
      SplitJoin(sp, ',');
      KeepSpaced(ks);
    }
  }

  lemma {:induction false} KeepSpaced(ks: seq<string>)
    requires forall i :: 0 <= i < |ks| ==> CleanKeyword(ks[i])
    ensures KeepKeywords(Spaced(ks)) == ks
    decreases |ks|
  {
    if ks != [] {
      var sp := Spaced(ks);
      assert sp[0] == ks[0];
      KeepBlanked(ks[1..]);
      assert sp[1..] == Blanked(ks[1..]);
      assert ks == [ks[0]] + ks[1..];
    }
  }

  /** Keywords each behind a blank come back stripped. */
  lemma {:induction false} KeepBlanked(ks: seq<string>)
    requires forall i :: 0 <= i < |ks| ==> CleanKeyword(ks[i])
    ensures KeepKeywords(Blanked(ks)) == ks
    decreases |ks|
  {
    if ks != [] {
      var b := Blanked(ks);
      StripLeadingBlank(ks[0]);
      KeepBlanked(ks[1..]);
      assert b[1..] == Blanked(ks[1..]);
      assert ks == [ks[0]] + ks[1..];
    }
  }

  /** The keyword line of the menu and of the keyword dialog: `", ".join(keywords) or "не указаны"`. */
  function KeywordsText(ks: seq<string>): string {
    if Join(ks, ", ") == "" then "не указаны" else Join(ks, ", ")
  }

  /**
   * For clean keywords the line reads "не указаны" exactly when there are none (or the only
   * keyword is that very text), and otherwise parses back to the keywords.
   */
  lemma KeywordsTextSpec(ks: seq<string>)
    requires forall i :: 0 <= i < |ks| ==> CleanKeyword(ks[i])
    ensures KeywordsText(ks) == "не указаны" <==> ks == [] || ks == ["не указаны"]
    ensures ks != [] ==> ParseKeywords(KeywordsText(ks)) == ks
  {
    if |ks| >= 2 {
      var j := Join(ks, ", ");
      assert j == ks[0] + ", " + Join(ks[1..], ", ");
      assert j[|ks[0]|] == ',';
      assert ',' in j;
      assert ',' !in "не указаны";
    }
    if ks != [] {
      assert |Join(ks, ", ")| >= |ks[0]| > 0 by {
        if |ks| >= 2 {
          assert Join(ks, ", ") == ks[0] + ", " + Join(ks[1..], ", ");
        }
      }
      ParseKeywordsJoin(ks);
    }
  }

  // ---------------------------------------------------------------------------------------------
  // Price filters

  const Any := "any"
  const Negotiated := "negotiated"
  const MinPrice := "min_price"

  /** The position of the first occurrence of `x`. */
  function FirstIndex(s: seq<string>, x: string): (i: nat)
    requires x in s
    ensures i < |s| && s[i] == x && x !in s[..i]
  {
    assert s == [s[0]] + s[1..];
    if s[0] == x then 0
    else
      var j := FirstIndex(s[1..], x);
      assert s[..j + 1] == [s[0]] + s[1..][..j];
      j + 1
  }

  /**
   * `list.remove(x)` after a membership test: the first occurrence goes, and the others keep
   * their order around the gap it leaves.
   */
  function RemoveFirst(s: seq<string>, x: string): (r: seq<string>)
    requires x in s
    ensures |r| == |s| - 1
    ensures multiset(r) == multiset(s) - multiset{x}
    ensures exists i :: 0 <= i < |s| && s[i] == x && x !in s[..i] && r == s[..i] + s[i + 1..]
  {
    var i := FirstIndex(s, x);
    assert s == s[..i] + [s[i]] + s[i + 1..];
    s[..i] + s[i + 1..]
  }

  /** Without repeats, the value at any position where it occurs is the one removed. */
  lemma RemoveAt(s: seq<string>, x: string, i: int)
    requires NoDup(s) && 0 <= i < |s| && s[i] == x
    ensures RemoveFirst(s, x) == s[..i] + s[i + 1..]
  {
    var j := FirstIndex(s, x);
    assert j == i;
  }

  /** No filter appears twice. */
  predicate NoDup(s: seq<string>) {
    forall i, j :: 0 <= i < j < |s| ==> s[i] != s[j]
  }

  lemma {:induction false} NoDupCount(s: seq<string>, x: string)
    requires NoDup(s)
    ensures multiset(s)[x] <= 1
  {
    if s != [] {
      assert s == [s[0]] + s[1..];
      NoDupCount(s[1..], x);
      if s[0] == x {
        assert x !in s[1..];
      }
    }
  }

  /** Removing keeps the filters distinct and leaves none of the removed one. */
  lemma RemoveFirstNoDup(s: seq<string>, x: string)
    requires x in s && NoDup(s)
    ensures NoDup(RemoveFirst(s, x)) && x !in RemoveFirst(s, x)
  {
    var i := FirstIndex(s, x);
    RemoveAt(s, x, i);
    var r := s[..i] + s[i + 1..];
    forall k | 0 <= k < |r| ensures r[k] == s[if k < i then k else k + 1] {
    }
    forall a, b | 0 <= a < b < |r| ensures r[a] != r[b] {
      assert r[a] == s[if a < i then a else a + 1];
      assert r[b] == s[if b < i then b else b + 1];
    }
    forall k | 0 <= k < |r| ensures r[k] != x {
      assert r[k] == s[if k < i then k else k + 1];
    }
  }

  /** The filters after the first are distinct and do not repeat the first. */
  lemma NoDupTail(s: seq<string>)
    requires s != [] && NoDup(s)
    ensures NoDup(s[1..]) && s[0] !in s[1..]
  {
    var t := s[1..];
    forall k | 0 <= k < |t| ensures t[k] != s[0] {
      assert t[k] == s[k + 1];
    }
    forall i, j | 0 <= i < j < |t| ensures t[i] != t[j] {
      assert t[i] == s[i + 1] && t[j] == s[j + 1];
    }
  }

  /** The "Любая цена" button. */
  function ToggleAny(filters: seq<string>): seq<string> {
    if Any in filters then
      var r := RemoveFirst(filters, Any);
      if r == [] then [Any] else r
    else [Any]
  }

  /** The "По договоренности" button. */
  function ToggleNegotiated(filters: seq<string>): seq<string> {
    if Negotiated in filters then
      var r := RemoveFirst(filters, Negotiated);
      if r == [] then r + [Any] else r
    else (if Any in filters then RemoveFirst(filters, Any) else filters) + [Negotiated]
  }

  /**
   * "Любая цена": absent, it becomes the whole list; present, it is removed from its place with
   * the other filters kept in order, unless that would leave nothing. The list is never empty
   * and stays free of repeats.
   */
  lemma ToggleAnySpec(filters: seq<string>)
    requires NoDup(filters)
    ensures Any !in filters ==> ToggleAny(filters) == [Any]
    ensures |filters| > 1 ==> forall i | 0 <= i < |filters| && filters[i] == Any ::
      ToggleAny(filters) == filters[..i] + filters[i + 1..]
    ensures Any in filters && |filters| > 1 ==> multiset(ToggleAny(filters)) == multiset(filters) - multiset{Any}
    ensures Any in filters && |filters| == 1 ==> ToggleAny(filters) == [Any]
    ensures ToggleAny(filters) != [] && NoDup(ToggleAny(filters))
  {
    if Any in filters {
      RemoveFirstNoDup(filters, Any);
      forall i | 0 <= i < |filters| && filters[i] == Any
        ensures RemoveFirst(filters, Any) == filters[..i] + filters[i + 1..]
      {
        RemoveAt(filters, Any, i);
      }
    }
  }

  /**
   * "По договоренности": adding it drops "any" from its place and appends "negotiated" after the
   * other filters, kept in order; removing it keeps the others in order and falls back to "any"
   * when nothing is left. The list is never empty and stays free of repeats.
   */
  lemma ToggleNegotiatedSpec(filters: seq<string>)
    requires NoDup(filters)
    ensures Negotiated !in filters && Any !in filters ==> ToggleNegotiated(filters) == filters + [Negotiated]
    ensures Negotiated !in filters ==> forall i | 0 <= i < |filters| && filters[i] == Any ::
      ToggleNegotiated(filters) == filters[..i] + filters[i + 1..] + [Negotiated]
    ensures Negotiated !in filters ==>
      multiset(ToggleNegotiated(filters)) == multiset(filters) - multiset{Any} + multiset{Negotiated}
    ensures |filters| > 1 ==> forall i | 0 <= i < |filters| && filters[i] == Negotiated ::
      ToggleNegotiated(filters) == filters[..i] + filters[i + 1..]
    ensures Negotiated in filters ==> Negotiated !in ToggleNegotiated(filters)
    ensures Negotiated in filters && |filters| == 1 ==> ToggleNegotiated(filters) == [Any]
    ensures ToggleNegotiated(filters) != [] && NoDup(ToggleNegotiated(filters))
  {
    if Negotiated in filters {
      RemoveFirstNoDup(filters, Negotiated);
      forall i | 0 <= i < |filters| && filters[i] == Negotiated
        ensures RemoveFirst(filters, Negotiated) == filters[..i] + filters[i + 1..]
      {
        RemoveAt(filters, Negotiated, i);
      }
    } else {
      var base := if Any in filters then RemoveFirst(filters, Any) else filters;
      DropAny(filters);
      assert Negotiated !in base;
      AppendNoDup(base, Negotiated);
    }
  }

  lemma AppendNoDup(s: seq<string>, x: string)
    requires NoDup(s) && x !in s
    ensures NoDup(s + [x])
  {
  }

  /**
   * The minimum-price step: `int(text)` must succeed and not be negative; then the draft becomes
   * `WithMinPrice` of itself, and the filters and the value are stored.
   */
  function ApplyPriceMin(filters: seq<string>, text: string): Option<(seq<string>, int)> {
    match ParseInt(text)
    case None => None
    case Some(v) => if v < 0 then None else Some((WithMinPrice(filters), v))
  }

  /** Every amount above `2**63 - 1`, typed as its decimal, is accepted, yet the store cannot bind it. */
  lemma AmountBeyondInteger(filters: seq<string>, v: int)
    requires v > 0x7FFF_FFFF_FFFF_FFFF
    ensures ApplyPriceMin(filters, IntToString(v)) == Some((WithMinPrice(filters), v))
    ensures !FitsInteger(v)
  {
    ParseIntOfIntToString(v);
  }

  /** The draft after an accepted amount: "any" goes, "min_price" is appended unless already there. */
  function WithMinPrice(filters: seq<string>): seq<string> {
    var base := if Any in filters then RemoveFirst(filters, Any) else filters;
    var r := if MinPrice !in base then base + [MinPrice] else base;
    if r == [] then r + [MinPrice] else r
  }

  /** The draft without "any", the other filters kept and in order. */
  lemma DropAny(filters: seq<string>)
    requires NoDup(filters)
    ensures var base := if Any in filters then RemoveFirst(filters, Any) else filters;
      && NoDup(base) && Any !in base
      && (forall f | f != Any :: f in base <==> f in filters)
      && (forall i | 0 <= i < |filters| && filters[i] == Any :: base == filters[..i] + filters[i + 1..])
  {
    if Any in filters {
      var base := RemoveFirst(filters, Any);
      RemoveFirstNoDup(filters, Any);
      forall i | 0 <= i < |filters| && filters[i] == Any
        ensures base == filters[..i] + filters[i + 1..]
      {
        RemoveAt(filters, Any, i);
      }
      forall f | f != Any ensures f in base <==> f in filters {
        assert multiset(base)[f] == multiset(filters)[f];
      }
    }
  }

  /**
   * After an accepted amount "any" has gone from its place, "min_price" is there once, appended
   * unless it was already chosen, and every other filter is kept, in order.
   */
  lemma WithMinPriceSpec(filters: seq<string>)
    requires NoDup(filters)
    ensures Any !in WithMinPrice(filters) && MinPrice in WithMinPrice(filters)
    ensures multiset(WithMinPrice(filters))[MinPrice] == 1 && NoDup(WithMinPrice(filters))
    ensures forall f | f != Any && f != MinPrice :: f in WithMinPrice(filters) <==> f in filters
    ensures Any !in filters ==> WithMinPrice(filters) == if MinPrice in filters then filters else filters + [MinPrice]
    ensures forall i | 0 <= i < |filters| && filters[i] == Any ::
      WithMinPrice(filters) == if MinPrice in filters then filters[..i] + filters[i + 1..] else filters[..i] + filters[i + 1..] + [MinPrice]
  {
    var base := if Any in filters then RemoveFirst(filters, Any) else filters;
    DropAny(filters);
    assert MinPrice in base <==> MinPrice in filters;
    if MinPrice !in base {
      assert WithMinPrice(filters) == base + [MinPrice];
      AppendNoDup(base, MinPrice);
      NoDupCount(base + [MinPrice], MinPrice);
    } else {
      assert WithMinPrice(filters) == base;
      NoDupCount(base, MinPrice);
    }
  }

  /**
   * Rejected input stores nothing. Accepted input stores the number typed; "any" goes from its
   * place, "min_price" is appended unless already there, and every other filter is kept, in order.
   */
  lemma ApplyPriceMinSpec(filters: seq<string>, text: string)
    requires NoDup(filters)
    ensures ApplyPriceMin(filters, text).None? <==> ParseInt(text).None? || ParseInt(text).value < 0
    ensures ApplyPriceMin(filters, text).Some? ==>
      var (r, v) := ApplyPriceMin(filters, text).value;
      && v == ParseInt(text).value && v >= 0
      && Any !in r && MinPrice in r && multiset(r)[MinPrice] == 1 && NoDup(r)
      && (forall f | f != Any && f != MinPrice :: f in r <==> f in filters)
      && (Any !in filters ==> r == if MinPrice in filters then filters else filters + [MinPrice])
      && (forall i | 0 <= i < |filters| && filters[i] == Any ::
            r == if MinPrice in filters then filters[..i] + filters[i + 1..] else filters[..i] + filters[i + 1..] + [MinPrice])
  {
    WithMinPriceSpec(filters);
  }

  /** The price-filter line of the menu: one text per chosen filter, or "Не настроен". */
  function PriceSummary(filters: seq<string>, priceMin: int): string {
    var texts := (if Any in filters then ["Любая цена"] else [])
               + (if Negotiated in filters then ["По договоренности"] else [])
               + (if MinPrice in filters then ["От " + IntToString(priceMin) + " рублей"] else []);
    if texts == [] then "Не настроен" else Join(texts, ", ")
  }

  /** A joined list starts with the first character of its first piece. */
  lemma JoinFirst(parts: seq<string>, sep: string)
    requires parts != [] && parts[0] != ""
    ensures Join(parts, sep) != "" && Join(parts, sep)[0] == parts[0][0]
  {
  }

  /** The menu says "Не настроен" exactly when none of the three filters is chosen. */
  lemma PriceSummaryUnset(filters: seq<string>, priceMin: int)
    ensures PriceSummary(filters, priceMin) == "Не настроен" <==> Any !in filters && Negotiated !in filters && MinPrice !in filters
  {
    var texts := (if Any in filters then ["Любая цена"] else [])
               + (if Negotiated in filters then ["По договоренности"] else [])
               + (if MinPrice in filters then ["От " + IntToString(priceMin) + " рублей"] else []);
    if texts != [] {
      assert texts[0][0] in {'Л', 'П', 'О'};
      JoinFirst(texts, ", ");
      assert "Не настроен"[0] == 'Н';
    }
  }

  // ---------------------------------------------------------------------------------------------
  // The price line of a notification

  const NegotiatedText := "По договоренности"

  /** The price line: "by agreement" for such a text at price 0, the amount in brackets when positive. */
  function PriceDisplay(n: Notification): string {
    if Contains(n.priceText, NegotiatedText) && n.price == 0 then "💰 Цена: По договоренности"
    else if n.price > 0 then "💰 Цена: " + n.priceText + " (" + IntToString(n.price) + " руб.)"
    else "💰 Цена: " + n.priceText
  }

  /** The amount is shown exactly when the price is positive, and the price text unless it is "by agreement" at 0. */
  lemma PriceDisplayCases(n: Notification)
    ensures n.price > 0 ==> PriceDisplay(n) == "💰 Цена: " + n.priceText + " (" + IntToString(n.price) + " руб.)"
    ensures n.price <= 0 && !(Contains(n.priceText, NegotiatedText) && n.price == 0) ==> PriceDisplay(n) == "💰 Цена: " + n.priceText
    ensures n.price == 0 && Contains(n.priceText, NegotiatedText) ==> PriceDisplay(n) == "💰 Цена: По договоренности"
  {
  }

  // ---------------------------------------------------------------------------------------------
  // The dispatch pass

  /** The user has no cursor yet: `last_sent_id` is NULL or empty. */
  predicate FirstTime(row: UserRow) {
    row.lastSentId.None? || row.lastSentId.value == ""
  }

  /**
   * The cursor `check_for_updates` writes for a user with notifications `notes`: nothing when
   * there are none; the last one's id on the first time (nothing is sent then); otherwise the
   * last one's id when it is not empty.
   */
  function NextCursor(row: UserRow, notes: seq<Notification>): Option<string> {
    if notes == [] then None
    else if FirstTime(row) then Some(notes[|notes| - 1].taskId)
    else if notes[|notes| - 1].taskId != "" then Some(notes[|notes| - 1].taskId)
    else None
  }

  /** The row of one enabled user after its turn in the pass. */
  function Checked(row: UserRow, tasks: seq<Entry>, key: Entry -> int, model: string -> string): UserRow {
    match NextCursor(row, Notifications(Some(row), tasks, key, model))
    case None => row
    case Some(c) => row.(lastSentId := Some(c))
  }

  /** The table after the pass: every enabled user takes its turn, the others are left alone. */
  function Dispatched(users: map<int, UserRow>, tasks: seq<Entry>, key: Entry -> int, model: string -> string): map<int, UserRow> {
    map id | id in users :: if id in EnabledIds(users) then Checked(users[id], tasks, key, model) else users[id]
  }

  /** What the user is sent in its turn: nothing the first time, every notification otherwise. */
  function Sends(row: UserRow, tasks: seq<Entry>, key: Entry -> int, model: string -> string): seq<Notification> {
    if FirstTime(row) then [] else Notifications(Some(row), tasks, key, model)
  }

  /** The log entries for sending `notes` to `user`, in order. */
  function Tagged(user: int, notes: seq<Notification>): (r: seq<(int, Notification)>)
    ensures |r| == |notes|
    ensures forall k | 0 <= k < |r| :: r[k] == (user, notes[k])
  {
    seq(|notes|, k requires 0 <= k < |notes| => (user, notes[k]))
  }

  lemma TaggedSnoc(user: int, notes: seq<Notification>, j: nat)
    requires j < |notes|
    ensures Tagged(user, notes[..j + 1]) == Tagged(user, notes[..j]) + [(user, notes[j])]
  {
  }

  /** Everything a pass over the rows `rows`, in that order, tries to send. */
  function Outbox(rows: seq<(int, UserRow)>, tasks: seq<Entry>, key: Entry -> int, model: string -> string): seq<(int, Notification)> {
    if rows == [] then []
    else
      var last := rows[|rows| - 1];
      Outbox(rows[..|rows| - 1], tasks, key, model) + Tagged(last.0, Sends(last.1, tasks, key, model))
  }

  /** One more turn appends that user's sends. */
  lemma OutboxSnoc(rows: seq<(int, UserRow)>, r: (int, UserRow), tasks: seq<Entry>, key: Entry -> int, model: string -> string)
    ensures Outbox(rows + [r], tasks, key, model) == Outbox(rows, tasks, key, model) + Tagged(r.0, Sends(r.1, tasks, key, model))
  {
    assert (rows + [r])[..|rows|] == rows;
  }

  lemma AppendAssoc<T>(a: seq<T>, b: seq<T>, c: seq<T>)
    ensures (a + b) + c == a + (b + c)
  {
  }

  /** The table once the users of `done` have had their turns, in that order. */
  function Progress(before: map<int, UserRow>, done: seq<(int, UserRow)>, tasks: seq<Entry>, key: Entry -> int,
                    model: string -> string): map<int, UserRow>
  {
    if done == [] then before
    else
      var r := done[|done| - 1];
      Progress(before, done[..|done| - 1], tasks, key, model)[r.0 := Checked(r.1, tasks, key, model)]
  }

  /** Turns taken from the rows read from the table update those users' rows and no others. */
  lemma {:induction false} ProgressSpec(before: map<int, UserRow>, done: seq<(int, UserRow)>, tasks: seq<Entry>,
                                        key: Entry -> int, model: string -> string)
    requires Stored(before, done)
    ensures Progress(before, done, tasks, key, model).Keys == before.Keys
    ensures forall id | id in before ::
              Progress(before, done, tasks, key, model)[id]
              == if id in UserIds(done) then Checked(before[id], tasks, key, model) else before[id]
    decreases |done|
  {
    if done != [] {
      var init := done[..|done| - 1];
      assert Stored(before, init) by {
        forall i | 0 <= i < |init| ensures init[i].0 in before && init[i].1 == before[init[i].0] {
          assert init[i] == done[i];
        }
      }
      ProgressSpec(before, init, tasks, key, model);
    }
  }

  /** One more turn updates that user's row. */
  lemma ProgressSnoc(before: map<int, UserRow>, done: seq<(int, UserRow)>, r: (int, UserRow), tasks: seq<Entry>,
                     key: Entry -> int, model: string -> string)
    ensures Progress(before, done + [r], tasks, key, model)
         == Progress(before, done, tasks, key, model)[r.0 := Checked(r.1, tasks, key, model)]
  {
    assert (done + [r])[..|done|] == done;
  }

  /** A user that has not had its turn still has the row it started with. */
  lemma ProgressUntouched(before: map<int, UserRow>, done: seq<(int, UserRow)>, id: int, tasks: seq<Entry>,
                          key: Entry -> int, model: string -> string)
    requires Stored(before, done) && id in before && id !in UserIds(done)
    ensures id in Progress(before, done, tasks, key, model)
    ensures Progress(before, done, tasks, key, model)[id] == before[id]
  {
    ProgressSpec(before, done, tasks, key, model);
  }

  /** Before its turn, a user of the pass still has the row the pass read. */
  lemma TurnReady(start: map<int, UserRow>, rows: seq<(int, UserRow)>, i: nat, tasks: seq<Entry>,
                  key: Entry -> int, model: string -> string)
    requires i < |rows| && Stored(start, rows) && DistinctUsers(rows)
    ensures rows[i].0 in Progress(start, rows[..i], tasks, key, model)
    ensures Progress(start, rows[..i], tasks, key, model)[rows[i].0] == rows[i].1
  {
    var user := rows[i].0;
    assert Stored(start, rows[..i]) by {
      forall k | 0 <= k < i ensures rows[..i][k] == rows[k] {
      }
    }
    assert user !in UserIds(rows[..i]) by {
      forall k | 0 <= k < i ensures rows[..i][k].0 != user {
      }
      NotInUserIds(rows[..i], user);
    }
    ProgressUntouched(start, rows[..i], user, tasks, key, model);
  }

  /** A turn is one step of both the table and the log. */
  lemma TurnDone(start: map<int, UserRow>, sent: seq<(int, Notification)>, rows: seq<(int, UserRow)>, i: nat,
                 tasks: seq<Entry>, key: Entry -> int, model: string -> string)
    requires i < |rows|
    ensures Progress(start, rows[..i + 1], tasks, key, model)
         == Progress(start, rows[..i], tasks, key, model)[rows[i].0 := Checked(rows[i].1, tasks, key, model)]
    ensures sent + Outbox(rows[..i + 1], tasks, key, model)
         == (sent + Outbox(rows[..i], tasks, key, model)) + Tagged(rows[i].0, Sends(rows[i].1, tasks, key, model))
  {
    assert rows[..i + 1] == rows[..i] + [rows[i]];
    ProgressSnoc(start, rows[..i], rows[i], tasks, key, model);
    OutboxSnoc(rows[..i], rows[i], tasks, key, model);
    AppendAssoc(sent, Outbox(rows[..i], tasks, key, model), Tagged(rows[i].0, Sends(rows[i].1, tasks, key, model)));
  }

  /** A pass over every enabled row gives the dispatched table. */
  lemma ProgressDispatched(before: map<int, UserRow>, rows: seq<(int, UserRow)>, tasks: seq<Entry>,
                           key: Entry -> int, model: string -> string)
    requires Stored(before, rows) && UserIds(rows) == EnabledIds(before)
    ensures Progress(before, rows, tasks, key, model) == Dispatched(before, tasks, key, model)
  {
    var p := Progress(before, rows, tasks, key, model);
    var d := Dispatched(before, tasks, key, model);
    ProgressSpec(before, rows, tasks, key, model);
    assert p.Keys == d.Keys;
    forall id | id in p ensures p[id] == d[id] {
      assert id in before;
    }
  }

  /**
   * The pass changes only cursors, and only of enabled users: a user with no notifications keeps
   * its cursor; the first time it becomes the last notification's id; otherwise the last
   * notification's id when that is not empty, whether or not the sends succeeded.
   */
  lemma DispatchedSpec(users: map<int, UserRow>, tasks: seq<Entry>, key: Entry -> int, model: string -> string, id: int)
    requires id in users
    ensures Dispatched(users, tasks, key, model).Keys == users.Keys
    ensures var row := users[id];
      var after := Dispatched(users, tasks, key, model)[id];
      var notes := Notifications(Some(row), tasks, key, model);
      && after == row.(lastSentId := after.lastSentId)
      && (row.notificationsEnabled != 1 ==> after == row)
      && (notes == [] ==> after == row)
      && (row.notificationsEnabled == 1 && notes != [] && FirstTime(row) ==> after.lastSentId == Some(notes[|notes| - 1].taskId))
      && (row.notificationsEnabled == 1 && notes != [] && !FirstTime(row) ==>
            after.lastSentId == if notes[|notes| - 1].taskId != "" then Some(notes[|notes| - 1].taskId) else row.lastSentId)
  {
  }

  /**
   * Two passes over an unchanged store: after the first, a second sends nothing more to an
   * enabled user with notifications, provided the store's ids are unique and not empty.
   */
  lemma DispatchedQuiet(users: map<int, UserRow>, tasks: seq<Entry>, key: Entry -> int, model: string -> string, id: int)
    requires id in EnabledIds(users)
    requires UniqueIds(tasks) && forall i :: 0 <= i < |tasks| ==> tasks[i].id != ""
    ensures Notifications(Some(users[id]), tasks, key, model) != [] ==>
      Notifications(Some(Dispatched(users, tasks, key, model)[id]), tasks, key, model) == []
  {
    var row := users[id];
    var notes := Notifications(Some(row), tasks, key, model);
    if notes != [] {
      NotesDrawnFromStore(row, tasks, key, model);
      var last := notes[|notes| - 1].taskId;
      assert last != "" by {
        var i :| 0 <= i < |tasks| && tasks[i].id == last;
      }
      assert Dispatched(users, tasks, key, model)[id] == row.(lastSentId := Some(last));
      QuietAfterCursor(row, tasks, key, model);
    }
  }

  // ---------------------------------------------------------------------------------------------
  // Cursor seeding and the price-filter buttons

  /**
   * The seeding `start` and `toggle_notifications` do: when the store has a latest id that is
   * not empty, it becomes the user's cursor; otherwise the table is left as it is.
   */
  function Seeded(users: map<int, UserRow>, id: int, latest: Option<string>): map<int, UserRow> {
    if latest.Some? && latest.value != "" then Update(users, id, SetLastSentId(latest.value)) else users
  }

  /**
   * Seeding from the store gives a stored user a cursor that names a posting of the store, so
   * its next turn sends only what comes after that posting; only that user's cursor changes.
   */
  lemma SeededCursor(users: map<int, UserRow>, id: int, tasks: seq<Entry>, key: Entry -> int)
    requires id in users
    ensures var after := Seeded(users, id, LatestId(tasks, key));
      && after.Keys == users.Keys
      && after[id] == users[id].(lastSentId := after[id].lastSentId)
      && (forall other | other in users && other != id :: after[other] == users[other])
      && (LatestId(tasks, key).Some? && LatestId(tasks, key).value != "" ==>
            && after[id].lastSentId == LatestId(tasks, key)
            && !FirstTime(after[id]) && !CursorMissing(tasks, after[id].lastSentId))
      && (LatestId(tasks, key).None? ==> after == users)
  {
    var latest := LatestId(tasks, key);
    if latest.Some? && latest.value != "" {
      var k := LatestIndex(tasks, key).value;
      assert tasks[k].id == latest.value;
    }
  }

  const ToggleAnyButton := "price_toggle_any"
  const ToggleNegotiatedButton := "price_toggle_negotiated"
  const ToggleMinButton := "price_toggle_min"
  const SaveButton := "price_save"
  const MenuButton := "menu"

  /** The draft after a button of the price-filter dialog that only edits it. */
  function PressFilter(filters: seq<string>, callback: string): seq<string> {
    if callback == ToggleAnyButton then ToggleAny(filters)
    else if callback == ToggleNegotiatedButton then ToggleNegotiated(filters)
    else filters
  }

  /**
   * A draft that is not empty and free of repeats, as every stored list that the dialog writes
   * is, stays so whatever button is pressed; the two toggles are the only buttons that change it.
   */
  lemma PressFilterKeeps(filters: seq<string>, callback: string)
    requires filters != [] && NoDup(filters)
    ensures PressFilter(filters, callback) != [] && NoDup(PressFilter(filters, callback))
    ensures callback != ToggleAnyButton && callback != ToggleNegotiatedButton ==> PressFilter(filters, callback) == filters
  {
    if callback == ToggleAnyButton {
      ToggleAnySpec(filters);
    } else if callback == ToggleNegotiatedButton {
      ToggleNegotiatedSpec(filters);
    }
  }

  // ---------------------------------------------------------------------------------------------
  // The bot object

  /** Where a dialog goes next: waiting for keywords, for filter buttons, for a minimum price, or done. */
  datatype Conversation = Keywords | PriceFilter | PriceMin | End

  class Bot {
    const db: Database
    var monitoringActive: bool
    /** The per-user dialog data: the filters being edited and the minimum price. */
    var draftFilters: map<int, seq<string>>
    var draftMin: map<int, int>
    /** Every notification the bot tried to send, with its user, in order. */
    var attempted: seq<(int, Notification)>

    constructor(db: Database)
      ensures this.db == db && !monitoringActive
      ensures draftFilters == map[] && draftMin == map[] && attempted == []
    {
      this.db := db;
      monitoringActive := false;
      draftFilters := map[];
      draftMin := map[];
      attempted := [];
    }

    /**
     * The launch step of `run`: monitoring is switched on at once when some user has
     * notifications enabled, so that `Start` then leaves a returning user's cursor alone.
     */
    method Launch()
      modifies this
      ensures monitoringActive == (old(monitoringActive) || EnabledIds(db.users) != {})
      ensures draftFilters == old(draftFilters) && draftMin == old(draftMin) && attempted == old(attempted)
    {
      var rows := db.GetUsersWithNotifications();
      if rows != [] {
        monitoringActive := true;
      }
    }

    /**
     * `check_for_updates` over a snapshot `tasks` of the store, with dates keyed by `byDate`.
     * `order` is the order in which the enabled users were read.
     */
    method CheckForUpdates(tasks: seq<Entry>, byDate: Entry -> int, model: string -> string)
      returns (ghost order: seq<(int, UserRow)>)
      modifies this, db
      ensures UserIds(order) == EnabledIds(old(db.users)) && Stored(old(db.users), order) && DistinctUsers(order)
      ensures db.users == Dispatched(old(db.users), tasks, byDate, model)
      ensures attempted == old(attempted) + Outbox(order, tasks, byDate, model)
      ensures draftFilters == old(draftFilters) && draftMin == old(draftMin) && monitoringActive == old(monitoringActive)
    {
      var rows := db.GetUsersWithNotifications();
      order := rows;
      if rows == [] {
        assert EnabledIds(db.users) == {};
        ProgressDispatched(db.users, rows, tasks, byDate, model);
        return;
      }
      CheckUsers(rows, tasks, byDate, model);
      ProgressDispatched(old(db.users), rows, tasks, byDate, model);
    }

    /** The loop over the enabled rows, each user taking its turn. */
    method CheckUsers(rows: seq<(int, UserRow)>, tasks: seq<Entry>, byDate: Entry -> int, model: string -> string)
      requires Stored(db.users, rows) && DistinctUsers(rows)
      modifies this, db
      ensures db.users == Progress(old(db.users), rows, tasks, byDate, model)
      ensures attempted == old(attempted) + Outbox(rows, tasks, byDate, model)
      ensures draftFilters == old(draftFilters) && draftMin == old(draftMin) && monitoringActive == old(monitoringActive)
    {
      var i := 0;
      while i < |rows|
        invariant 0 <= i <= |rows|
        invariant db.users == Progress(old(db.users), rows[..i], tasks, byDate, model)
        invariant attempted == old(attempted) + Outbox(rows[..i], tasks, byDate, model)
        invariant draftFilters == old(draftFilters) && draftMin == old(draftMin) && monitoringActive == old(monitoringActive)
      {
        NextTurn(rows, i, old(db.users), old(attempted), tasks, byDate, model);
        i := i + 1;
      }
      assert rows[..|rows|] == rows;
    }

    /** The turn of the `i`-th row: the table and the log take one more step of the pass. */
    method NextTurn(rows: seq<(int, UserRow)>, i: nat, ghost start: map<int, UserRow>, ghost sent: seq<(int, Notification)>,
                    tasks: seq<Entry>, byDate: Entry -> int, model: string -> string)
      requires i < |rows| && Stored(start, rows) && DistinctUsers(rows)
      requires db.users == Progress(start, rows[..i], tasks, byDate, model)
      requires attempted == sent + Outbox(rows[..i], tasks, byDate, model)
      modifies this, db
      ensures db.users == Progress(start, rows[..i + 1], tasks, byDate, model)
      ensures attempted == sent + Outbox(rows[..i + 1], tasks, byDate, model)
      ensures draftFilters == old(draftFilters) && draftMin == old(draftMin) && monitoringActive == old(monitoringActive)
    {
      TurnReady(start, rows, i, tasks, byDate, model);
      CheckUser(rows[i].0, rows[i].1, tasks, byDate, model);
      TurnDone(start, sent, rows, i, tasks, byDate, model);
    }

    /** One user's turn: compute its notifications, then seed the cursor or send and advance it. */
    method CheckUser(user: int, row: UserRow, tasks: seq<Entry>, byDate: Entry -> int, model: string -> string)
      requires user in db.users && db.users[user] == row
      modifies this, db
      ensures db.users == old(db.users)[user := Checked(row, tasks, byDate, model)]
      ensures attempted == old(attempted) + Tagged(user, Sends(row, tasks, byDate, model))
      ensures draftFilters == old(draftFilters) && draftMin == old(draftMin) && monitoringActive == old(monitoringActive)
    {
      var settings := db.GetUserSettings(user);
      var notes := GetNotificationsForUser(settings, tasks, byDate, model);
      assert notes == Notifications(Some(row), tasks, byDate, model);
      if notes == [] {
        assert Checked(row, tasks, byDate, model) == row;
        assert Tagged(user, Sends(row, tasks, byDate, model)) == [];
        return;
      }
      if row.lastSentId.None? || row.lastSentId.value == "" {
        assert Checked(row, tasks, byDate, model) == row.(lastSentId := Some(notes[|notes| - 1].taskId));
        assert Tagged(user, Sends(row, tasks, byDate, model)) == [];
        db.UpdateLastSentId(user, notes[|notes| - 1].taskId);
        return;
      }
      assert Sends(row, tasks, byDate, model) == notes;
      var lastTaskId := SendAll(user, notes);
      if lastTaskId.Some? && lastTaskId.value != "" {
        assert Checked(row, tasks, byDate, model) == row.(lastSentId := Some(lastTaskId.value));
        db.UpdateLastSentId(user, lastTaskId.value);
      } else {
        assert Checked(row, tasks, byDate, model) == row;
      }
    }

    /**
     * The send loop: every notification is attempted, in order, whether or not an earlier one
     * failed; the answer is the last one's id.
     */
    method SendAll(user: int, notes: seq<Notification>) returns (lastTaskId: Option<string>)
      modifies this
      ensures attempted == old(attempted) + Tagged(user, notes)
      ensures lastTaskId == if notes == [] then None else Some(notes[|notes| - 1].taskId)
      ensures draftFilters == old(draftFilters) && draftMin == old(draftMin) && monitoringActive == old(monitoringActive)
    {
      lastTaskId := None;
      var j := 0;
      while j < |notes|
        invariant 0 <= j <= |notes|
        invariant lastTaskId == if j == 0 then None else Some(notes[j - 1].taskId)
        invariant attempted == old(attempted) + Tagged(user, notes[..j])
        invariant draftFilters == old(draftFilters) && draftMin == old(draftMin) && monitoringActive == old(monitoringActive)
      {
        TaggedSnoc(user, notes, j);
        lastTaskId := Some(notes[j].taskId);
        attempted := attempted + [(user, notes[j])];
        j := j + 1;
      }
      assert notes[..|notes|] == notes;
    }
    /**
     * `start`: the user's row is created if missing; while no monitoring runs, its cursor is
     * seeded with the store's latest id.
     */
    method Start(user: int, tasks: seq<Entry>, byDate: Entry -> int)
      modifies db
      ensures db.users == if monitoringActive then InsertOrIgnore(old(db.users), user)
                          else Seeded(InsertOrIgnore(old(db.users), user), user, LatestId(tasks, byDate))
    {
      var known := db.UserExists(user);
      if !known {
        db.AddUser(user);
      }
      assert db.users == InsertOrIgnore(old(db.users), user);
      if !monitoringActive {
        var latestId := GetLatestTaskId(tasks, byDate);
        if latestId.Some? && latestId.value != "" {
          db.UpdateLastSentId(user, latestId.value);
        }
      }
    }

    /**
     * `toggle_notifications`: the flag is set from the button; turning it on seeds the cursor
     * and starts the monitoring if it was not running.
     */
    method ToggleNotifications(user: int, callback: string, tasks: seq<Entry>, byDate: Entry -> int)
      modifies this, db
      ensures var enable := callback == "toggle_notifications_on";
        var toggled := Update(old(db.users), user, SetNotifications(enable));
        && db.users == (if enable then Seeded(toggled, user, LatestId(tasks, byDate)) else toggled)
        && monitoringActive == (old(monitoringActive) || enable)
      ensures draftFilters == old(draftFilters) && draftMin == old(draftMin) && attempted == old(attempted)
    {
      var enable := callback == "toggle_notifications_on";
      db.ToggleNotifications(user, enable);
      if enable {
        var latestId := GetLatestTaskId(tasks, byDate);
        if latestId.Some? && latestId.value != "" {
          db.UpdateLastSentId(user, latestId.value);
        }
        if !monitoringActive {
          monitoringActive := true;
        }
      }
    }

    /** `set_keywords_done`: the typed list replaces the user's keywords. */
    method SetKeywordsDone(user: int, text: string) returns (next: Conversation)
      modifies db
      ensures db.users == Update(old(db.users), user, SetKeywords(ParseKeywords(text)))
      ensures next == End
    {
      db.UpdateKeywords(user, ParseKeywords(text));
      next := End;
    }

    /** `set_price_filter_start`: the dialog starts from a copy of the stored filters and minimum. */
    method SetPriceFilterStart(user: int) returns (next: Conversation)
      modifies this
      ensures var settings := Settings(db.users, user);
        && draftFilters == old(draftFilters)[user := if settings.Some? then settings.value.priceFilters else [Any]]
        && draftMin == old(draftMin)[user := if settings.Some? then settings.value.priceMin else 0]
      ensures attempted == old(attempted) && monitoringActive == old(monitoringActive)
      ensures next == PriceFilter
    {
      var settings := db.GetUserSettings(user);
      var filters := if settings.Some? then settings.value.priceFilters else [Any];
      draftFilters := draftFilters[user := filters];
      draftMin := draftMin[user := if settings.Some? then settings.value.priceMin else 0];
      next := PriceFilter;
    }

    /**
     * `set_price_filter_done`: the toggles edit the draft and stay in the dialog, "от суммы"
     * keeps the draft and asks for the amount, "save" stores the draft with the dialog's minimum,
     * "menu" leaves; the draft defaults to `["any"]`. A minimum the store cannot bind makes the
     * handler raise, so the dialog stays where it was.
     */
    method SetPriceFilterDone(user: int, callback: string) returns (next: Conversation)
      modifies this, db
      ensures var filters := if user in old(draftFilters) then old(draftFilters)[user] else [Any];
        && (callback == ToggleMinButton ==>
              next == PriceMin && draftFilters == old(draftFilters)[user := filters] && db.users == old(db.users))
        && (callback == SaveButton ==>
              var m := if user in old(draftMin) then old(draftMin)[user] else 0;
              && draftFilters == old(draftFilters)
              && (FitsInteger(m) ==> next == End && db.users == Update(old(db.users), user, SetPriceFilters(filters, m)))
              && (!FitsInteger(m) ==> next == PriceFilter && db.users == old(db.users)))
        && (callback == MenuButton ==> next == End && draftFilters == old(draftFilters) && db.users == old(db.users))
        && (callback !in {ToggleMinButton, SaveButton, MenuButton} ==>
              && next == PriceFilter && db.users == old(db.users)
              && draftFilters == old(draftFilters)[user := PressFilter(filters, callback)])
      ensures draftMin == old(draftMin) && attempted == old(attempted) && monitoringActive == old(monitoringActive)
    {
      var filters := if user in draftFilters then draftFilters[user] else [Any];
      if callback == ToggleMinButton {
        draftFilters := draftFilters[user := filters];
        return PriceMin;
      } else if callback == SaveButton {
        var stored := db.UpdatePriceFilters(user, filters, if user in draftMin then draftMin[user] else 0);
        return if stored then End else PriceFilter;
      } else if callback == MenuButton {
        return End;
      }
      draftFilters := draftFilters[user := PressFilter(filters, callback)];
      next := PriceFilter;
    }

    /**
     * `set_price_min_done`: a text `int` rejects, or a negative amount, keeps the dialog waiting
     * and changes nothing; otherwise the filters (the draft, or none) lose "any" and gain
     * "min_price", the dialog's draft and minimum follow, and both are stored. An amount the
     * store cannot bind raises only after the draft and minimum were set, so those changes stay,
     * the table is unchanged and the dialog keeps waiting.
     */
    method SetPriceMinDone(user: int, text: string) returns (next: Conversation)
      modifies this, db
      ensures var filters := if user in old(draftFilters) then old(draftFilters)[user] else [];
        var applied := ApplyPriceMin(filters, text);
        && (applied.None? ==>
              next == PriceMin && db.users == old(db.users)
              && draftFilters == old(draftFilters) && draftMin == old(draftMin))
        && (applied.Some? ==>
              && (FitsInteger(applied.value.1) ==>
                    next == End && db.users == Update(old(db.users), user, SetPriceFilters(applied.value.0, applied.value.1)))
              && (!FitsInteger(applied.value.1) ==> next == PriceMin && db.users == old(db.users))
              && draftMin == old(draftMin)[user := applied.value.1]
              && draftFilters == if user in old(draftFilters) then old(draftFilters)[user := applied.value.0]
                                 else old(draftFilters))
      ensures attempted == old(attempted) && monitoringActive == old(monitoringActive)
    {
      var filters := if user in draftFilters then draftFilters[user] else [];
      var applied := ApplyPriceMin(filters, text);
      if applied.None? {
        return PriceMin;
      }
      var (updated, priceMin) := applied.value;
      if user in draftFilters {
        draftFilters := draftFilters[user := updated];
      }
      draftMin := draftMin[user := priceMin];
      var stored := db.UpdatePriceFilters(user, updated, priceMin);
      next := if stored then End else PriceMin;
    }
  }
}
