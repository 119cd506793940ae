/** The mutating handlers (POST, PUT and DELETE on /events) as methods of a
    store that holds the event document, and what a later lookup sees after
    each of them. */
module Store {
  import opened Text
  import opened Events
  import opened Validation
  import opened Listing

  /** The event collection as the JSON document holds it, in stored order. */
  class EventStore {
    var events: seq<Record>

    constructor (stored: seq<Record>)
      ensures events == stored
    {
      events := stored;
    }

    /** POST /events with id `newId` drawn by the caller: a valid input is
        appended as `{ id: newId, ...input }`; an invalid one is rejected
        before the collection is touched. */
    method Create(body: Option<Record>, newId: string) returns (r: Result<Record>)
      modifies this
      ensures Validate(body).Fail? ==> r == Err(Validate(body).failure) && events == old(events)
      ensures Validate(body).Pass? ==>
        && r == Ok(NewEvent(newId, body.value))
        && events == old(events) + [r.value]
    {
      var check := Validate(body);
      if check.Fail? {
        return Err(check.failure);
      }
      var newEvent := NewEvent(newId, body.value);
      events := events + [newEvent];
      return Ok(newEvent);
    }

    /** PUT /events/:id: the input is validated first, then the first event
        with the id is replaced whole by `{ id, ...input }`; an unknown id
        changes nothing. */
    method Update(id: string, body: Option<Record>) returns (r: Result<Record>)
      modifies this
      ensures Validate(body).Fail? ==> r == Err(Validate(body).failure) && events == old(events)
      ensures Validate(body).Pass? && Absent(old(events), id) ==>
        r == Err(EventNotFound) && events == old(events)
      ensures Validate(body).Pass? && !Absent(old(events), id) ==>
        var i := FindIndex(old(events), id);
        && r == Ok(NewEvent(id, body.value))
        && |events| == |old(events)|
        && events == old(events)[i := r.value]
    {
      var check := Validate(body);
      if check.Fail? {
        return Err(check.failure);
      }
      var eventIndex := FindIndex(events, id);
      if eventIndex == -1 {
        return Err(EventNotFound);
      }
      events := events[eventIndex := NewEvent(id, body.value)];
      return Ok(events[eventIndex]);
    }

    /** DELETE /events/:id: the first event with the id is spliced out; an
        unknown id changes nothing. */
    method Delete(id: string) returns (r: Result<string>)
      modifies this
      ensures Absent(old(events), id) ==> r == Err(EventNotFound) && events == old(events)
      ensures !Absent(old(events), id) ==>
        && r == Ok("Event deleted")
        && |events| == |old(events)| - 1
        && events == Removed(old(events), FindIndex(old(events), id))
    {
      var eventIndex := FindIndex(events, id);
      if eventIndex == -1 {
        return Err(EventNotFound);
      }
      events := events[..eventIndex] + events[eventIndex + 1..];
      return Ok("Event deleted");
    }
  }

  /** The id a created or updated record ends up with. */
  function IdOf(id: string, input: Record): (r: string)
  {
    if "id" in input then input["id"] else id
  }

  /** After a create whose record's id was not yet taken, getting that id
      returns the record created. */
  lemma CreateThenGet(events: seq<Record>, newId: string, input: Record)
    requires Absent(events, IdOf(newId, input))
    ensures GetEvent(events + [NewEvent(newId, input)], IdOf(newId, input)) == Ok(NewEvent(newId, input))
  {
    var s := events + [NewEvent(newId, input)];
    var id := IdOf(newId, input);
    assert HasId(s[|events|], id);
    forall k | 0 <= k < |events| ensures !HasId(s[k], id) {
      assert s[k] == events[k];
    }
  }

  /** A create leaves every lookup of an id already present as it was: on
      an id collision the new record is shadowed by the older one. */
  lemma {:induction false} CreateKeepsLookups(events: seq<Record>, rec: Record, id: string)
    requires !Absent(events, id)
    ensures GetEvent(events + [rec], id) == GetEvent(events, id)
  {
    FindAtFindIndex(events, id);
    FindAtFindIndex(events + [rec], id);
    FindIndexPrefix(events, [rec], id);
  }

  /** `findIndex` on a longer sequence finds the same first match when the
      prefix already has one. */
  lemma {:induction false} FindIndexPrefix(a: seq<Record>, b: seq<Record>, id: string)
    requires !Absent(a, id)
    ensures FindIndex(a + b, id) == FindIndex(a, id)
  {
    var i := FindIndex(a, id);
    assert (a + b)[i] == a[i];
    forall k | 0 <= k < i ensures !HasId((a + b)[k], id) {
      assert (a + b)[k] == a[k];
    }
  }

  /** An update whose input has no other id makes a later get of the path
      id return the replacement, with nothing left of the old record. */
  lemma UpdateThenGet(events: seq<Record>, id: string, input: Record)
    requires !Absent(events, id)
    requires "id" in input ==> input["id"] == id
    ensures var s := events[FindIndex(events, id) := NewEvent(id, input)];
      GetEvent(s, id) == Ok(NewEvent(id, input))
  {
    var i := FindIndex(events, id);
    var s := events[i := NewEvent(id, input)];
    assert HasId(s[i], id);
    forall k | 0 <= k < i ensures !HasId(s[k], id) {
      assert s[k] == events[k];
    }
  }

  /** An `id` field in the input overrides the path id: the replaced
      record no longer carries the path id and a get of it does not return
      the replacement. */
  lemma UpdateBodyIdOverrides(events: seq<Record>, id: string, input: Record)
    requires !Absent(events, id)
    requires "id" in input && input["id"] != id
    ensures var s := events[FindIndex(events, id) := NewEvent(id, input)];
      !HasId(s[FindIndex(events, id)], id) && GetEvent(s, id) != Ok(NewEvent(id, input))
  {
  }

  /** With unique ids, after a delete no event has the deleted id. */
  lemma DeleteThenGet(events: seq<Record>, id: string)
    requires UniqueIds(events) && !Absent(events, id)
    ensures GetEvent(Removed(events, FindIndex(events, id)), id) == Err(NoEventForId(id))
  {
    var i := FindIndex(events, id);
    var s := Removed(events, i);
    forall k | 0 <= k < |s| ensures !HasId(s[k], id) {
      if k >= i {
        assert s[k] == events[k + 1];
      }
    }
  }

  /** After a delete, a get of the id fails exactly when no later event
      had the same id; otherwise it returns the first such later event. */
  lemma DeleteThenGetAny(events: seq<Record>, id: string)
    requires !Absent(events, id)
    ensures var i := FindIndex(events, id);
      var r := GetEvent(Removed(events, i), id);
      && (r.Err? <==> Absent(events[i + 1..], id))
      && (r.Ok? ==> r.value == events[i + 1 + FindIndex(events[i + 1..], id)])
  {
    var i := FindIndex(events, id);
    var s := Removed(events, i);
    var tail := events[i + 1..];
    assert s[..i] == events[..i];
    assert s == events[..i] + tail;
    forall k | 0 <= k < i ensures !HasId(s[k], id) {
      assert s[k] == events[k];
    }
    forall k | 0 <= k < |tail| ensures s[i + k] == tail[k] {
    }
    var j := FindIndex(s, id);
    var t := FindIndex(tail, id);
    if t >= 0 {
      assert HasId(s[i + t], id);
      forall k | 0 <= k < i + t ensures !HasId(s[k], id) {
        if k >= i { assert s[k] == tail[k - i]; }
      }
      assert j == i + t;
    } else {
      forall k | 0 <= k < |s| ensures !HasId(s[k], id) {
        if k >= i { assert s[k] == tail[k - i]; }
      }
    }
  }

  /** A create whose record's id is new keeps ids unique. */
  lemma CreateKeepsUnique(events: seq<Record>, newId: string, input: Record)
    requires UniqueIds(events) && Absent(events, IdOf(newId, input))
    ensures UniqueIds(events + [NewEvent(newId, input)])
  {
    var s := events + [NewEvent(newId, input)];
    forall i, j | 0 <= i < j < |s| && "id" in s[i] && "id" in s[j] ensures s[i]["id"] != s[j]["id"] {
      if j == |events| {
        assert s[i] == events[i] && !HasId(events[i], IdOf(newId, input));
      } else {
        assert s[i] == events[i] && s[j] == events[j];
      }
    }
  }

  /** An update that keeps the path id keeps ids unique. */
  lemma UpdateKeepsUnique(events: seq<Record>, id: string, input: Record)
    requires UniqueIds(events) && !Absent(events, id)
    requires "id" in input ==> input["id"] == id
    ensures UniqueIds(events[FindIndex(events, id) := NewEvent(id, input)])
  {
    var k := FindIndex(events, id);
    var s := events[k := NewEvent(id, input)];
    forall i, j | 0 <= i < j < |s| && "id" in s[i] && "id" in s[j] ensures s[i]["id"] != s[j]["id"] {
      if i == k {
        assert s[j] == events[j];
      } else if j == k {
        assert s[i] == events[i];
      } else {
        assert s[i] == events[i] && s[j] == events[j];
      }
    }
  }

  /** A delete keeps ids unique. */
  lemma DeleteKeepsUnique(events: seq<Record>, i: nat)
    requires UniqueIds(events) && i < |events|
    ensures UniqueIds(Removed(events, i))
  {
    var s := Removed(events, i);
    forall a, b | 0 <= a < b < |s| && "id" in s[a] && "id" in s[b] ensures s[a]["id"] != s[b]["id"] {
      var a' := if a < i then a else a + 1;
      var b' := if b < i then b else b + 1;
      assert s[a] == events[a'] && s[b] == events[b'];
    }
  }

  /** The launch event used as a worked example. */
  const Launch: Record := map[
    "title" := "Launch", "description" := "Kickoff event", "date" := "2024-01-01",
    "time" := "10:00", "image" := "img.png", "location" := "HQ"]

  /** The text a search of the created launch event looks in. */
  lemma LaunchSearchText(newId: string)
    ensures SearchText(NewEvent(newId, Launch)) == "Launch Kickoff event HQ"
  {
    var e := NewEvent(newId, Launch);
    assert e["title"] == "Launch" && e["description"] == "Kickoff event" && e["location"] == "HQ";
  }

  /** The six required fields of the launch event. */
  lemma LaunchFields()
    ensures Launch["title"] == "Launch" && Launch["description"] == "Kickoff event"
    ensures Launch["date"] == "2024-01-01" && Launch["time"] == "10:00"
    ensures Launch["image"] == "img.png" && Launch["location"] == "HQ"
  {
  }

  /** None of the launch event's values is blank. */
  lemma LaunchValuesFilled()
    ensures Trim("Launch") != [] && Trim("Kickoff event") != [] && Trim("2024-01-01") != []
    ensures Trim("10:00") != [] && Trim("img.png") != [] && Trim("HQ") != []
  {
    LaunchFirstValuesFilled();
    LaunchLastValuesFilled();
  }

  lemma LaunchFirstValuesFilled()
    ensures Trim("Launch") != [] && Trim("Kickoff event") != [] && Trim("2024-01-01") != []
  {
  }

  lemma LaunchLastValuesFilled()
    ensures Trim("10:00") != [] && Trim("img.png") != [] && Trim("HQ") != []
  {
  }

  /** The launch event passes validation. */
  lemma LaunchIsValid()
    ensures Validate(Some(Launch)) == Pass
  {
    LaunchFields();
    LaunchValuesFilled();
  }

  /** The seven characters from index 7 of the lower-cased launch text. */
  lemma LaunchTextAtSeven()
    ensures var t := Lower("Launch Kickoff event HQ");
      t[7] == 'k' && t[8] == 'i' && t[9] == 'c' && t[10] == 'k' && t[11] == 'o' && t[12] == 'f' && t[13] == 'f'
  {
  }

  /** The lower-cased search text of the launch event has "kickoff" in it. */
  lemma LaunchTextHasKickoff()
    ensures Includes(Lower("Launch Kickoff event HQ"), "kickoff")
  {
    var t := Lower("Launch Kickoff event HQ");
    LaunchTextAtSeven();
    assert t[7..14] == "kickoff";
    assert OccursAt(t, "kickoff", 7);
    IncludesIff(t, "kickoff");
  }

  /** The lower-cased search text of the launch event has no letter m. */
  lemma LaunchTextLacksM()
    ensures 'm' !in Lower("Launch Kickoff event HQ")
  {
    LowerOmits("Launch Kickoff event HQ", 'm');
  }

  /** A search for "kickoff" matches the created launch event. */
  lemma LaunchMatchesKickoff(newId: string)
    ensures Matches(NewEvent(newId, Launch), "kickoff")
  {
    LaunchSearchText(newId);
    LaunchTextHasKickoff();
    assert Lower("kickoff") == "kickoff";
  }

  /** A search for "nomatch" does not match the created launch event. */
  lemma LaunchMissesNomatch(newId: string)
    ensures !Matches(NewEvent(newId, Launch), "nomatch")
  {
    LaunchSearchText(newId);
    LaunchTextLacksM();
    assert Lower("nomatch") == "nomatch";
    if Includes(Lower("Launch Kickoff event HQ"), "nomatch") {
      IncludesChars(Lower("Launch Kickoff event HQ"), "nomatch", 'm');
    }
  }

  /** Creating the launch event under a fresh id: it passes validation, a
      get of its id returns its fields, a search for "kickoff" lists it and
      a search for "nomatch" does not match it. */
  lemma LaunchScenario(events: seq<Record>, newId: string)
    requires Absent(events, newId)
    ensures Validate(Some(Launch)) == Pass
    ensures GetEvent(events + [NewEvent(newId, Launch)], newId) == Ok(NewEvent(newId, Launch))
    ensures Summarize(NewEvent(newId, Launch)) in ListEvents(events + [NewEvent(newId, Launch)], Some("kickoff"), None)
    ensures !Matches(NewEvent(newId, Launch), "nomatch")
  {
    var e := NewEvent(newId, Launch);
    LaunchIsValid();
    assert "id" !in Launch;
    CreateThenGet(events, newId, Launch);
    LaunchMatchesKickoff(newId);
    ListSearch(events + [e], "kickoff");
    LaunchMissesNomatch(newId);
  }
}
