/** The GET /events handler: an optional case-insensitive search, an
    optional trailing cut, and a projection of each event to its summary. */
module Listing {
  import opened Text
  import opened Events

  /** `${event.f}` in a template literal: the field's text, or the text
      "undefined" when the event has no such field. */
  function FieldText(e: Record, f: string): (t: string)
  {
    if f in e then e[f] else "undefined"
  }

  /** The text a search looks in: title, description and location joined
      by single spaces. */
  function SearchText(e: Record): (t: string)
  {
    FieldText(e, "title") + " " + FieldText(e, "description") + " " + FieldText(e, "location")
  }

  /** The filter callback: the lower-cased search text includes the
      lower-cased search string. */
  predicate Matches(e: Record, search: string)
  {
    Includes(Lower(SearchText(e)), Lower(search))
  }

  /** `events.filter(e => Matches(e, search))`. */
  function Filter(s: seq<Record>, search: string): (r: seq<Record>)
    ensures |r| <= |s|
    ensures forall e :: e in r <==> e in s && Matches(e, search)
  {
    if s == [] then []
    else (if Matches(s[0], search) then [s[0]] else []) + Filter(s[1..], search)
  }

  /** Filtering distributes over concatenation, so kept events stay in
      their original relative order. */
  lemma {:induction false} FilterAppend(a: seq<Record>, b: seq<Record>, search: string)
    ensures Filter(a + b, search) == Filter(a, search) + Filter(b, search)
  {
    if a == [] {
      assert a + b == b;
    } else {
      assert (a + b)[0] == a[0] && (a + b)[1..] == a[1..] + b;
      FilterAppend(a[1..], b, search);
      var head := if Matches(a[0], search) then [a[0]] else [];
      assert Filter(a + b, search) == head + (Filter(a[1..], search) + Filter(b, search));
    }
  }

  /** Filtering by the empty string would keep everything, since every text
      includes it: skipping the filter for an empty search changes nothing. */
  lemma {:induction false} FilterEmptySearch(s: seq<Record>)
    ensures Filter(s, "") == s
  {
    if s != [] {
      IncludesEmpty(Lower(SearchText(s[0])));
      FilterEmptySearch(s[1..]);
    }
  }

  /** The `if (search)` step: a missing or empty search keeps every event,
      any other search keeps the matching ones. */
  function Selected(s: seq<Record>, search: Option<string>): (r: seq<Record>)
    ensures search.None? || search.value == [] ==> r == s
    ensures forall e :: e in r <==> e in s && (search.Some? && search.value != [] ==> Matches(e, search.value))
  {
    if search.Some? && search.value != [] then Filter(s, search.value) else s
  }

  /** How `Array.prototype.slice` resolves an index against a length:
      a negative index counts from the end, and the result is clamped to
      `[0, len]`. */
  function RelativeIndex(k: int, len: nat): (r: nat)
    ensures r <= len
  {
    if k < 0 then (if len + k < 0 then 0 else len + k)
    else if k < len then k else len
  }

  /** `s.slice(start, end)`. */
  function JsSlice<T>(s: seq<T>, start: int, end: int): (r: seq<T>)
  {
    var from, to := RelativeIndex(start, |s|), RelativeIndex(end, |s|);
    if from < to then s[from..to] else []
  }

  /** `events.slice(events.length - max, events.length)`. The result is a
      suffix of `s`: the last `max` elements when `0 <= max <= |s|`; when
      `max` exceeds `|s|` the negative start `|s| - max` is counted from the
      end again, so the cut starts at `2|s| - max` and keeps only
      `max - |s|` elements (all of `s` once `max >= 2|s|`); and
      nothing for a negative `max`. */
  function TrailingCut<T>(s: seq<T>, max: int): (r: seq<T>)
    ensures |r| <= |s| && r == s[|s| - |r|..]
    ensures 0 <= max <= |s| ==> |r| == max
    ensures |s| < max ==> |r| == if 2 * |s| <= max then |s| else max - |s|
    ensures max < 0 ==> r == []
  {
    assert RelativeIndex(|s|, |s|) == |s|;
    JsSlice(s, |s| - max, |s|)
  }

  /** The fields a summary carries. */
  const SummaryFields: set<string> := {"id", "title", "image", "date", "location"}

  /** The summary object `{ id, title, image, date, location }` as sent:
      a field the event lacks is `undefined` and so left out of the JSON. */
  function Summarize(e: Record): (r: Record)
    ensures r.Keys == e.Keys * SummaryFields
    ensures forall f :: f in r ==> r[f] == e[f]
  {
    map f | f in e.Keys * SummaryFields :: e[f]
  }

  /** `events.map(Summarize)`. */
  function Summaries(s: seq<Record>): (r: seq<Record>)
    ensures |r| == |s| && forall i :: 0 <= i < |s| ==> r[i] == Summarize(s[i])
  {
    seq(|s|, i requires 0 <= i < |s| => Summarize(s[i]))
  }

  /** The whole handler. `max` is `None` when the query has no `max` (or an
      empty one); any other value, zero included, is a truthy string and
      applies the cut. The response lists the summaries, in stored order,
      of the trailing part of the selected events that the cut keeps. */
  function ListEvents(events: seq<Record>, search: Option<string>, max: Option<int>): (r: seq<Record>)
    ensures var sel := Selected(events, search);
      && |r| <= |sel|
      && (forall i :: 0 <= i < |r| ==> r[i] == Summarize(sel[|sel| - |r| + i]))
      && (max.None? ==> |r| == |sel|)
      && (max.Some? && 0 <= max.value <= |sel| ==> |r| == max.value)
      && (max.Some? && |sel| < max.value ==> |r| == if 2 * |sel| <= max.value then |sel| else max.value - |sel|)
      && (max.Some? && max.value < 0 ==> r == [])
  {
    var selected := Selected(events, search);
    var limited := if max.Some? then TrailingCut(selected, max.value) else selected;
    Summaries(limited)
  }

  /** With neither query parameter the handler lists every stored event, in
      order; listing is a function of the collection, so two calls without
      a write between them agree. */
  lemma ListAll(events: seq<Record>)
    ensures |ListEvents(events, None, None)| == |events|
    ensures forall i :: 0 <= i < |events| ==> ListEvents(events, None, None)[i] == Summarize(events[i])
  {
  }

  /** A search-only listing holds the summary of every matching event, and
      each summary in it comes from a matching event. */
  lemma {:induction false} ListSearch(events: seq<Record>, search: string)
    requires search != []
    ensures forall e :: e in events && Matches(e, search) ==> Summarize(e) in ListEvents(events, Some(search), None)
    ensures forall s :: s in ListEvents(events, Some(search), None) ==>
      exists e :: e in events && Matches(e, search) && s == Summarize(e)
  {
    var sel := Filter(events, search);
    var r := Summaries(sel);
    assert ListEvents(events, Some(search), None) == r;
    forall e | e in events && Matches(e, search) ensures Summarize(e) in r {
      var i :| 0 <= i < |sel| && sel[i] == e;
      assert r[i] == Summarize(e);
    }
    forall x | x in r ensures exists e :: e in events && Matches(e, search) && x == Summarize(e) {
      var i :| 0 <= i < |r| && r[i] == x;
      assert sel[i] in sel;
    }
  }
}
