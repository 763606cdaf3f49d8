# DOI Updater, modelled in Dafny

DOI Updater changes the lifecycle state and the target URL of DOIs
registered with DataCite through DataCite's REST API. Its core is small:

- two closed enums, `State` (findable, registered, draft) and `Event`
  (publish, register, hide), with lenient parsing from text;
- the transition resolver that maps a (current, desired) pair of states to
  the one DataCite event that makes that move;
- the `Metadata` record, which holds the state and URL as fetched and as the
  caller wants them, and builds the minimal update request from the
  difference between the two;
- the batch updater's derivation of a dataset DOI from a file DOI, and its
  plan that hides a findable dataset and points it at its resolver URL.

The project has three modules:

- `Text` (`text.dfy`) writes out the Python string built-ins the core uses:
  `lower`, `strip`, `startswith`, `split` and `join`.
- `Models` (`models.dfy`) follows `models.py`. The enums and the resolver are
  functions. `Metadata` is a class whose setters change one field each.
  `get_update_json` is a method that inserts the `event` and `url` keys into
  a map one at a time, as the source does.
- `BatchUpdater` (`batch_updater.dfy`) follows `batch_updater.py`.

Failures are values of `Result`, not exceptions. They are the four
variants `InvalidState`, `InvalidEvent`, `InvalidTransition` and
`NoUpdateRequired`.

The model also gives a reading of DataCite's own rules, which the code
relies on but does not contain. `Fire` gives the state an event moves a DOI
to. `EventNamed` and `Apply` say how DataCite applies an update request to a
DOI. With these, `GetEvent` is specified as "the event that makes the move".
`GetUpdateJson` is specified as "the request that, once applied, takes the
current snapshot to the updated one". The code itself only states the lookup
table and the diff.

The code raises two distinct messages for bad names, "Invalid state" and
"Invalid event", and the model keeps them apart as `InvalidState` and
`InvalidEvent`.

## Model

| member | source | states |
|---|---|---|
| Text.Lower | models.py:17 | used by both parsers (also models.py:34): the result has the input's length, and each character is the input's character lower-cased |
| Text.TrimStart | models.py:17 | the result is a suffix of the input; it does not start with whitespace, and everything dropped is whitespace |
| Text.TrimEnd | models.py:17 | the result is a prefix of the input; it does not end with whitespace, and everything dropped is whitespace |
| Text.Strip | models.py:17 | used by both parsers (also models.py:34): definition of `strip()` as `rstrip` after `lstrip`: no longer than the input, and neither starts nor ends with whitespace |
| Text.StripEmpty | models.py:17 | stripping gives the empty string exactly when the text is all whitespace |
| Text.Normalize | models.py:17 | definition of `value.lower().strip()`, the text both parsers look up (also models.py:34): no longer than the input, and without surrounding whitespace |
| Text.NormalizePadded | models.py:17 | lower-casing then stripping ignores surrounding whitespace and letter case: any padded spelling of a lower-case word normalises to that word |
| Text.Split | batch_updater.py:9 | `split("/")` always gives at least one part, no part contains the separator, and joining the parts with the separator gives back the input |
| Text.Join | batch_updater.py:10 | definition of `"/".join(parts)`: empty for no parts, and otherwise the first part leads the result |
| Text.JoinCount | batch_updater.py:10 | when no part holds the separator, the joined text holds exactly one separator fewer than there are parts |
| Text.StartsWith | batch_updater.py:8 | definition of `startswith`: holds exactly when the text is the prefix followed by the rest of the text |
| Models.State.ToString | models.py:12-13 | a state's text is a non-empty lower-case word |
| Models.Event.ToString | models.py:29-30 | an event's text is a non-empty lower-case word |
| Models.ParseState | models.py:15-21 | succeeds exactly when the lower-cased, stripped text is the name of some state, and then returns that state; otherwise fails with InvalidState |
| Models.ParseEvent | models.py:32-38 | succeeds exactly when the lower-cased, stripped text is the name of some event, and then returns that event; otherwise fails with InvalidEvent |
| Models.ParseStateToString | models.py:7-21 | round trip: parsing a state's text gives back that state |
| Models.ParseEventToString | models.py:24-38 | round trip: parsing an event's text gives back that event |
| Models.ParseStateTolerant | models.py:16-21 | any capitalisation of a state's name, padded with any whitespace, parses to that state |
| Models.ParseEventTolerant | models.py:33-38 | any capitalisation of an event's name, padded with any whitespace, parses to that event |
| Models.ParseStateRejectsPublished | models.py:16-21 | "published" is not a state and fails with InvalidState |
| Models.ParseEventRejectsStateName | models.py:33-38 | "findable" is not an event and fails with InvalidEvent |
| Models.GetEvent | models.py:40-49 | succeeds exactly when some event moves a DOI from the current to the desired state, and returns an event that does; otherwise InvalidTransition; always fails for equal states and for a desired draft |
| Models.EventIsUnique | models.py:41-47 | at most one event moves a DOI between two given states, and it is the one GetEvent returns |
| Models.TransitionTable | models.py:41-49 | publish for draft and registered to findable, register for draft to registered, hide for findable to registered; failure back to draft and for every equal pair |
| Models.Metadata.constructor | models.py:62-67 | the current and updated snapshots are both the given state and URL, and the DOI is the given one |
| Models.Metadata.GetCurrentState | models.py:69-70 | returns the current state |
| Models.Metadata.GetUpdatedState | models.py:72-73 | returns the updated state |
| Models.Metadata.GetDoi | models.py:78-79 | returns the DOI |
| Models.Metadata.GetCurrentUri | models.py:84-85 | returns the current URL |
| Models.Metadata.GetUpdatedUri | models.py:87-88 | returns the updated URL |
| Models.Metadata.SetUpdatedState | models.py:75-76 | sets the updated state; current state, both URLs and the DOI are unchanged |
| Models.Metadata.SetUpdatedUri | models.py:81-82 | sets the updated URL; both states, the current URL and the DOI are unchanged |
| Models.Metadata.GetUpdateJson | models.py:90-104 | type is "dois"; the only keys are event and url; event is present iff the states differ and is then the resolved event's text; url is present iff the URLs differ and is then the updated URL; DataCite applying the request turns the current snapshot into the updated one; fails with InvalidTransition iff the states differ by a move no event makes (whatever the URL), and with NoUpdateRequired iff nothing differs |
| Models.GetMetadataFromJson | models.py:110-120 | fails with InvalidState iff the response's state text does not parse; otherwise a fresh record whose two snapshots are the parsed state and the response's URL, with the response's id as DOI |
| Models.DraftPublishScenario | models.py:62-104 | a draft record asked to become findable yields exactly `{data: {type: "dois", attributes: {event: "publish"}}}` |
| Models.UnchangedRecordScenario | models.py:62-103 | a freshly constructed record, with its state set to the one it has, fails with NoUpdateRequired |
| BatchUpdater.StripDoiPrefix | batch_updater.py:4-8 | with the `https://doi.org/` prefix, exactly one copy is removed; without it, the DOI is unchanged |
| BatchUpdater.GetDatasetDoi | batch_updater.py:7-10 | without a `/` after stripping, the result is empty; otherwise the stripped DOI is the result, a `/`, and a last segment without `/`, so the result is a proper prefix |
| BatchUpdater.DatasetDoiOfChild | batch_updater.py:7-10 | whenever the stripped DOI is `parent/last` with no `/` in `last`, the dataset DOI is `parent` |
| BatchUpdater.DatasetDoiDropsOneSlash | batch_updater.py:9-10 | when the stripped DOI has at least one `/`, the dataset DOI has exactly one fewer |
| BatchUpdater.DatasetDoiExamples | batch_updater.py:7-10 | "https://doi.org/10.1/ABC/1" and "10.1/ABC/1" both give "10.1/ABC" |
| BatchUpdater.DatasetDoiOfSingleSegment | batch_updater.py:7-10 | "https://doi.org/10.1" gives the empty string |
| BatchUpdater.PlanUpdate | batch_updater.py:17-21 | a findable record's updated state becomes registered, and otherwise stays as it was; the updated URL becomes the resolver URL of the dataset DOI; the current snapshot and the DOI are unchanged |
| BatchUpdater.ProcessDoi | batch_updater.py:13-23 | from the fetched response: fails with InvalidState iff the state does not parse; succeeds whenever the state parses and the dataset is findable or its URL is not yet the resolver URL; a request body has type "dois" and no attributes other than event and url; a findable dataset gets the event hide, any other dataset gets no event; url is sent iff the fetched URL is not already the resolver URL; once applied, DataCite holds registered (or the unchanged state) and the resolver URL; never fails with InvalidTransition; fails with NoUpdateRequired iff a non-findable dataset already has the resolver URL |

## Left out

- `get_metadata` and `update_metadata` (models.py:123-162) are HTTP GET and PUT calls with basic authentication and status checks, and they are not part of this model. `ProcessDoi` takes the fetched response envelope as a parameter and returns the request body that `update_metadata` would send.
- `updater.py` is not part of this model. It is command-line wiring and printing.
- In `batch_updater.py`, the argument parser and the `print` calls are not modelled.
- `Metadata.__str__` is display formatting only and is not modelled.
- Text.Lower: lower-cases ASCII letters only. Python's `str.lower` also maps non-ASCII letters. No letter in a state or event name depends on that.
- Text.TrimStart: strips ASCII whitespace only. Python's `str.strip` also removes non-ASCII whitespace such as U+00A0 and U+2028.
- Text.TrimEnd: strips ASCII whitespace only, for the same reason as Text.TrimStart.
- The response envelope is a typed record. A JSON body with a missing key, which raises `KeyError` in Python, cannot be expressed.
- Exception messages are replaced by the four error variants.
- Python's dynamic typing is not modelled. A setter given something other than a `State` or a string cannot be expressed.
- `Fire`, `EventNamed` and `Apply` are this model's reading of DataCite's lifecycle rules, not code of the repository. Their correctness against the real DataCite service is assumed, not checked.
