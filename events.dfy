/** The event records of the service and the lookups by id that the
    get, update and delete handlers perform on the stored collection. */
module Events {

  /** An event as it is stored in the JSON document: an object whose fields
      are strings, keyed by field name. Required fields of a valid input
      are `title`, `description`, `date`, `time`, `image` and `location`;
      any other field is kept as it came. */
  type Record = map<string, string>

  datatype Option<T> = None | Some(value: T)

  /** The error responses the handlers send. */
  datatype Failure =
    | EventRequired            // the body carries no `event`
    | InvalidData              // a required field is missing or blank
    | NoEventForId(id: string) // get by an id no event has
    | EventNotFound            // update or delete of an id no event has
  {
    /** The HTTP status of the response. */
    function Status(): (code: nat)
    {
      match this
      case EventRequired => 400
      case InvalidData => 400
      case NoEventForId(_) => 404
      case EventNotFound => 404
    }

    /** The `message` of the JSON error body. */
    function Message(): (text: string)
    {
      match this
      case EventRequired => "Event is required"
      case InvalidData => "Invalid data provided."
      case NoEventForId(id) => "For the id " + id + ", no event could be found."
      case EventNotFound => "Event not found"
    }
  }

  datatype Result<T> = Ok(value: T) | Err(failure: Failure)

  /** `event.id === id`: the record has an `id` field equal to `id`. */
  predicate HasId(e: Record, id: string)
  {
    "id" in e && e["id"] == id
  }

  /** No event of `s` has the id `id`. */
  ghost predicate Absent(s: seq<Record>, id: string)
  {
    forall k :: 0 <= k < |s| ==> !HasId(s[k], id)
  }

  /** `events.findIndex(e => e.id === id)`: the index of the first event
      with that id, or -1 when there is none. */
  function FindIndex(s: seq<Record>, id: string): (r: int)
    ensures -1 <= r < |s|
    ensures r == -1 <==> Absent(s, id)
    ensures 0 <= r ==> HasId(s[r], id) && forall k :: 0 <= k < r ==> !HasId(s[k], id)
  {
    if s == [] then -1
    else if HasId(s[0], id) then 0
    else
      var j := FindIndex(s[1..], id);
      if j == -1 then -1 else j + 1
  }

  /** `events.find(e => e.id === id)`: the first event with that id. */
  function Find(s: seq<Record>, id: string): (r: Option<Record>)
    ensures r == None <==> Absent(s, id)
    ensures r.Some? ==> r.value in s && HasId(r.value, id)
  {
    if s == [] then None
    else if HasId(s[0], id) then Some(s[0])
    else Find(s[1..], id)
  }

  /** `find` and `findIndex` agree: `find` returns the element at the index
      `findIndex` reports. */
  lemma {:induction false} FindAtFindIndex(s: seq<Record>, id: string)
    ensures Find(s, id) == if FindIndex(s, id) < 0 then None else Some(s[FindIndex(s, id)])
  {
    if s != [] && !HasId(s[0], id) {
      FindAtFindIndex(s[1..], id);
    }
  }

  /** The GET /events/:id handler: the first event with the id, or a 404
      naming the id. */
  function GetEvent(s: seq<Record>, id: string): (r: Result<Record>)
    ensures r.Err? <==> Absent(s, id)
    ensures r.Err? ==> r.failure == NoEventForId(id) && r.failure.Status() == 404
    ensures r.Ok? ==> 0 <= FindIndex(s, id) && r.value == s[FindIndex(s, id)]
  {
    FindAtFindIndex(s, id);
    match Find(s, id)
    case None => Err(NoEventForId(id))
    case Some(e) => Ok(e)
  }

  /** `{ id, ...event }`: the input's fields with `id` added in front, so an
      `id` field of the input overrides the given one. */
  function NewEvent(id: string, input: Record): (r: Record)
    ensures r.Keys == input.Keys + {"id"}
    ensures forall k :: k in input ==> r[k] == input[k]
    ensures HasId(r, if "id" in input then input["id"] else id)
  {
    map["id" := id] + input
  }

  /** No two events of `s` share an id. The service intends this but does
      not enforce it. */
  ghost predicate UniqueIds(s: seq<Record>)
  {
    forall i, j :: 0 <= i < j < |s| && "id" in s[i] && "id" in s[j] ==> s[i]["id"] != s[j]["id"]
  }

  /** `events.splice(i, 1)`: the sequence without its element at `i`. */
  function Removed(s: seq<Record>, i: nat): (r: seq<Record>)
    requires i < |s|
    ensures |r| == |s| - 1
    ensures forall k :: 0 <= k < i ==> r[k] == s[k]
    ensures forall k :: i <= k < |r| ==> r[k] == s[k + 1]
  {
    s[..i] + s[i + 1..]
  }
}
