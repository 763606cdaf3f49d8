/**
 * The DOI lifecycle model of `models.py`: the two closed enums, the
 * transition resolver, the `Metadata` record with its current and updated
 * snapshots, the minimal update payload it builds for the DataCite REST API,
 * and the reading of a DataCite response envelope.
 */
module Models {
  import opened Text

  /** The four ways the core gives up; each aborts the DOI being processed. */
  datatype Error = InvalidState | InvalidEvent | InvalidTransition | NoUpdateRequired

  datatype Result<T> = Ok(value: T) | Err(error: Error)

  datatype Option<T> = None | Some(value: T)

  // ---------------------------------------------------------------------
  // States and events

  /** Where a DOI sits in DataCite's publication lifecycle. */
  datatype State = Findable | Registered | Draft {
    /** `State.__str__`: the member's value, which is also its name. */
    function ToString(): (s: string)
      ensures IsLowerWord(s)
    {
      match this
      case Findable => "findable"
      case Registered => "registered"
      case Draft => "draft"
    }
  }

  /** The commands DataCite accepts to move a DOI between states. */
  datatype Event = Publish | Register | Hide {
    /** `Event.__str__`: the member's value, which is also its name. */
    function ToString(): (s: string)
      ensures IsLowerWord(s)
    {
      match this
      case Publish => "publish"
      case Register => "register"
      case Hide => "hide"
    }
  }

  /** `State.from_string`: lower-case and strip the text, then look the
      result up among the member names. */
  function ParseState(value: string): (r: Result<State>)
    ensures r.Ok? <==> exists x: State :: x.ToString() == Normalize(value)
    ensures r.Ok? ==> r.value.ToString() == Normalize(value)
    ensures r.Err? ==> r.error == InvalidState
  {
    var name := Normalize(value);
    if name == "findable" then assert Findable.ToString() == name; Ok(Findable)
    else if name == "registered" then assert Registered.ToString() == name; Ok(Registered)
    else if name == "draft" then assert Draft.ToString() == name; Ok(Draft)
    else Err(InvalidState)
  }

  /** `Event.from_string`, the same lookup over the event names. */
  function ParseEvent(value: string): (r: Result<Event>)
    ensures r.Ok? <==> exists e: Event :: e.ToString() == Normalize(value)
    ensures r.Ok? ==> r.value.ToString() == Normalize(value)
    ensures r.Err? ==> r.error == InvalidEvent
  {
    var name := Normalize(value);
    if name == "publish" then assert Publish.ToString() == name; Ok(Publish)
    else if name == "register" then assert Register.ToString() == name; Ok(Register)
    else if name == "hide" then assert Hide.ToString() == name; Ok(Hide)
    else Err(InvalidEvent)
  }

  lemma {:induction false} ParseStateToString(x: State)
    ensures ParseState(x.ToString()) == Ok(x)
  {
    NormalizeOfLowerWord(x.ToString());
  }

  lemma {:induction false} ParseEventToString(e: Event)
    ensures ParseEvent(e.ToString()) == Ok(e)
  {
    NormalizeOfLowerWord(e.ToString());
  }

  /** Any capitalisation of a state's name, with any whitespace around it,
      parses to that state. */
  lemma {:induction false} ParseStateTolerant(x: State, w1: string, v: string, w2: string)
    requires AllSpace(w1) && AllSpace(w2)
    requires Lower(v) == x.ToString()
    ensures ParseState(w1 + v + w2) == Ok(x)
  {
    NormalizePadded(w1, v, w2);
  }

  /** Any capitalisation of an event's name, with any whitespace around it,
      parses to that event. */
  lemma {:induction false} ParseEventTolerant(e: Event, w1: string, v: string, w2: string)
    requires AllSpace(w1) && AllSpace(w2)
    requires Lower(v) == e.ToString()
    ensures ParseEvent(w1 + v + w2) == Ok(e)
  {
    NormalizePadded(w1, v, w2);
  }

  /** `"published"` is not a state name. */
  lemma ParseStateRejectsPublished()
    ensures ParseState("published") == Err(InvalidState)
  {
    NormalizeOfLowerWord("published");
  }

  /** A state name is not an event name. */
  lemma ParseEventRejectsStateName()
    ensures ParseEvent("findable") == Err(InvalidEvent)
  {
    NormalizeOfLowerWord("findable");
  }

  // ---------------------------------------------------------------------
  // Transitions

  /** DataCite's meaning of an event: the state a DOI in state `from` moves
      to when the event is applied, or None when DataCite defines no such
      move. Publishing makes a draft or registered DOI findable, registering
      makes a draft registered, and hiding takes a findable DOI back to
      registered. */
  function Fire(from: State, e: Event): Option<State> {
    match e
    case Publish => if from == Draft || from == Registered then Some(Findable) else None
    case Register => if from == Draft then Some(Registered) else None
    case Hide => if from == Findable then Some(Registered) else None
  }

  /** `Event.get_event`: the event that moves a DOI from `current` to
      `desired`. It succeeds exactly when some event makes that move, and
      fails with an invalid transition otherwise. */
  function GetEvent(current: State, desired: State): (r: Result<Event>)
    ensures r.Ok? <==> exists e: Event :: Fire(current, e) == Some(desired)
    ensures r.Ok? ==> Fire(current, r.value) == Some(desired)
    ensures r.Err? ==> r.error == InvalidTransition
    ensures current == desired ==> r.Err?
    ensures desired == Draft ==> r.Err?
  {
    if (current == Draft || current == Registered) && desired == Findable then
      assert Fire(current, Publish) == Some(desired);
      Ok(Publish)
    else if current == Draft && desired == Registered then
      assert Fire(current, Register) == Some(desired);
      Ok(Register)
    else if current == Findable && desired == Registered then
      assert Fire(current, Hide) == Some(desired);
      Ok(Hide)
    else
      assert forall e: Event :: Fire(current, e) != Some(desired);
      Err(InvalidTransition)
  }

  /** At most one event links two states, so the event GetEvent picks is the
      only one that makes the move. */
  lemma EventIsUnique(current: State, desired: State, e: Event)
    requires Fire(current, e) == Some(desired)
    ensures GetEvent(current, desired) == Ok(e)
  {
  }

  /** The whole table, pair by pair. */
  lemma TransitionTable()
    ensures GetEvent(Draft, Findable) == Ok(Publish)
    ensures GetEvent(Registered, Findable) == Ok(Publish)
    ensures GetEvent(Draft, Registered) == Ok(Register)
    ensures GetEvent(Findable, Registered) == Ok(Hide)
    ensures GetEvent(Findable, Draft).Err? && GetEvent(Registered, Draft).Err?
    ensures forall s: State :: GetEvent(s, s).Err?
  {
  }

  // ---------------------------------------------------------------------
  // Update payload

  /** The `data` member of the request body; `kind` stands for its `type`. */
  datatype UpdateData = UpdateData(kind: string, attributes: map<string, string>)

  /** The request body `{data: {type, attributes}}` sent with a PUT. */
  datatype UpdateRequest = UpdateRequest(data: UpdateData)

  /** The event whose name is exactly `name`, as DataCite reads the `event`
      attribute. */
  function EventNamed(name: string): (r: Option<Event>)
    ensures r.Some? <==> exists e: Event :: e.ToString() == name
    ensures r.Some? ==> r.value.ToString() == name
  {
    if name == "publish" then assert Publish.ToString() == name; Some(Publish)
    else if name == "register" then assert Register.ToString() == name; Some(Register)
    else if name == "hide" then assert Hide.ToString() == name; Some(Hide)
    else None
  }

  /** How DataCite reads an update request against a DOI in `state` at `url`:
      an `event` attribute is a command that must fire from `state`, a `url`
      attribute replaces the URL. None when the event cannot be applied. */
  function Apply(state: State, url: string, req: UpdateRequest): Option<(State, string)> {
    var attributes := req.data.attributes;
    var newUrl := if "url" in attributes then attributes["url"] else url;
    if "event" !in attributes then Some((state, newUrl))
    else
      match EventNamed(attributes["event"])
      case None => None
      case Some(e) =>
        match Fire(state, e)
        case None => None
        case Some(next) => Some((next, newUrl))
  }

  // ---------------------------------------------------------------------
  // The metadata record

  /** A DOI's metadata as fetched, with the snapshot the caller wants it
      updated to. */
  class Metadata {
    var currentState: State
    var updatedState: State
    var doi: string
    var currentUrl: string
    var updatedUrl: string

    /** Both snapshots start out equal. */
    constructor (state: State, doi: string, url: string)
      ensures currentState == state && updatedState == state
      ensures this.doi == doi
      ensures currentUrl == url && updatedUrl == url
    {
      currentState := state;
      updatedState := state;
      this.doi := doi;
      currentUrl := url;
      updatedUrl := url;
    }

    method GetCurrentState() returns (s: State)
      ensures s == currentState
    {
      s := currentState;
    }

    method GetUpdatedState() returns (s: State)
      ensures s == updatedState
    {
      s := updatedState;
    }

    method GetDoi() returns (d: string)
      ensures d == doi
    {
      d := doi;
    }

    method GetCurrentUri() returns (u: string)
      ensures u == currentUrl
    {
      u := currentUrl;
    }

    method GetUpdatedUri() returns (u: string)
      ensures u == updatedUrl
    {
      u := updatedUrl;
    }

    /** Only the updated state changes. */
    method SetUpdatedState(state: State)
      modifies this`updatedState
      ensures updatedState == state
      ensures currentState == old(currentState) && doi == old(doi)
      ensures currentUrl == old(currentUrl) && updatedUrl == old(updatedUrl)
    {
      updatedState := state;
    }

    /** Only the updated URL changes. */
    method SetUpdatedUri(uri: string)
      modifies this`updatedUrl
      ensures updatedUrl == uri
      ensures currentState == old(currentState) && updatedState == old(updatedState)
      ensures doi == old(doi) && currentUrl == old(currentUrl)
    {
      updatedUrl := uri;
    }

    /** `get_update_json`: the minimal request that takes DataCite from the
        current snapshot to the updated one. It carries an `event` exactly
        when the states differ and a `url` exactly when the URLs differ; it
        fails when the states differ by a move no event makes, and when
        nothing differs at all. */
    method GetUpdateJson() returns (r: Result<UpdateRequest>)
      ensures r.Ok? ==> r.value.data.kind == "dois"
      ensures r.Ok? ==> r.value.data.attributes.Keys <= {"event", "url"}
      ensures r.Ok? ==> ("event" in r.value.data.attributes <==> updatedState != currentState)
      ensures r.Ok? && "event" in r.value.data.attributes ==>
        GetEvent(currentState, updatedState).Ok? &&
        r.value.data.attributes["event"] == GetEvent(currentState, updatedState).value.ToString()
      ensures r.Ok? ==> ("url" in r.value.data.attributes <==> updatedUrl != currentUrl)
      ensures r.Ok? && "url" in r.value.data.attributes ==> r.value.data.attributes["url"] == updatedUrl
      ensures r.Ok? ==> Apply(currentState, currentUrl, r.value) == Some((updatedState, updatedUrl))
      ensures r == Err(InvalidTransition) <==>
        updatedState != currentState && GetEvent(currentState, updatedState).Err?
      ensures r == Err(NoUpdateRequired) <==> updatedState == currentState && updatedUrl == currentUrl
      ensures r.Err? ==> r.error in {InvalidTransition, NoUpdateRequired}
    {
      var attributes: map<string, string> := map[];
      if updatedState != currentState {
        var event := GetEvent(currentState, updatedState);
        if event.Err? {
          return Err(event.error);
        }
        attributes := attributes["event" := event.value.ToString()];
      }
      if currentUrl != updatedUrl {
        attributes := attributes["url" := updatedUrl];
      }
      if |attributes| == 0 {
        return Err(NoUpdateRequired);
      }
      r := Ok(UpdateRequest(UpdateData("dois", attributes)));
    }
  }

  // ---------------------------------------------------------------------
  // Reading a DataCite response

  /** The part of a DataCite response body the model reads:
      `{data: {id, attributes: {state, url}}}`. */
  datatype Envelope = Envelope(data: EnvelopeData)
  datatype EnvelopeData = EnvelopeData(id: string, attributes: EnvelopeAttributes)
  datatype EnvelopeAttributes = EnvelopeAttributes(state: string, url: string)

  /** `get_metadata_from_json`: a fresh record whose two snapshots are the
      response's state and URL; fails when the state is not a state name. */
  method GetMetadataFromJson(json: Envelope) returns (r: Result<Metadata>)
    ensures r.Err? <==> ParseState(json.data.attributes.state).Err?
    ensures r.Err? ==> r.error == InvalidState
    ensures r.Ok? ==> fresh(r.value)
    ensures r.Ok? ==>
      && r.value.currentState == ParseState(json.data.attributes.state).value
      && r.value.updatedState == r.value.currentState
      && r.value.doi == json.data.id
      && r.value.currentUrl == json.data.attributes.url
      && r.value.updatedUrl == json.data.attributes.url
  {
    var state := ParseState(json.data.attributes.state);
    if state.Err? {
      return Err(state.error);
    }
    var metadata := new Metadata(state.value, json.data.id, json.data.attributes.url);
    r := Ok(metadata);
  }

  // ---------------------------------------------------------------------
  // Whole fetch-update cycles on one record

  /** A draft record asked to become findable yields exactly
      `{data: {type: "dois", attributes: {event: "publish"}}}`. */
  method DraftPublishScenario(doi: string, url: string) returns (r: Result<UpdateRequest>)
    ensures r == Ok(UpdateRequest(UpdateData("dois", map["event" := "publish"])))
  {
    var metadata := new Metadata(Draft, doi, url);
    metadata.SetUpdatedState(Findable);
    r := metadata.GetUpdateJson();
    assert GetEvent(Draft, Findable) == Ok(Publish);
    var attributes := r.value.data.attributes;
    assert attributes.Keys == {"event"} && attributes["event"] == "publish";
    assert attributes == map["event" := "publish"];
  }

  /** A record left as constructed, or set to the state and URL it already
      has, has nothing to send. */
  method UnchangedRecordScenario(state: State, doi: string, url: string) returns (r: Result<UpdateRequest>)
    ensures r == Err(NoUpdateRequired)
  {
    var metadata := new Metadata(state, doi, url);
    metadata.SetUpdatedState(state);
    r := metadata.GetUpdateJson();
  }
}
