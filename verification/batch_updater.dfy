/**
 * The batch updater of `batch_updater.py`: deriving a dataset DOI from a
 * file DOI, and the planning step of `process_doi` that hides a findable
 * dataset and points it at its own DOI resolver URL. The HTTP fetch and
 * submit are not part of this model: the fetched response is a parameter,
 * and the result is the request body that would be submitted.
 */
module BatchUpdater {
  import opened Text
  import opened Models

  const DOI_PREFIX: string := "https://doi.org/"

  /** Removes one leading `https://doi.org/` when it is there. */
  function StripDoiPrefix(fileDoi: string): (doi: string)
    ensures StartsWith(fileDoi, DOI_PREFIX) ==> DOI_PREFIX + doi == fileDoi
    ensures !StartsWith(fileDoi, DOI_PREFIX) ==> doi == fileDoi
  {
    if StartsWith(fileDoi, DOI_PREFIX) then fileDoi[|DOI_PREFIX|..] else fileDoi
  }

  /** `get_dataset_doi`: the prefix-stripped DOI without its last
      `/`-separated segment. Without a `/` that is the empty string;
      otherwise the DOI is the result, a `/`, and a last segment free of
      `/`. */
  function GetDatasetDoi(fileDoi: string): (r: string)
    ensures '/' !in StripDoiPrefix(fileDoi) ==> r == ""
    ensures var doi := StripDoiPrefix(fileDoi);
      '/' in doi ==> |r| < |doi| && doi == r + "/" + doi[|r| + 1..] && '/' !in doi[|r| + 1..]
  {
    var doi := StripDoiPrefix(fileDoi);
    var parts := Split(doi, '/');
    var init := parts[..|parts| - 1];
    if |parts| == 1 then
      Join(init, '/')
    else
      assert parts == init + [parts[|parts| - 1]];
      JoinSnoc(init, parts[|parts| - 1], '/');
      Join(init, '/')
  }

  /** The dataset DOI is determined by the last `/`: whatever precedes it. */
  lemma {:induction false} DatasetDoiOfChild(fileDoi: string, parent: string, last: string)
    requires StripDoiPrefix(fileDoi) == parent + "/" + last
    requires '/' !in last
    ensures GetDatasetDoi(fileDoi) == parent
  {
    SplitSnoc(parent, last, '/');
    var parts := Split(StripDoiPrefix(fileDoi), '/');
    assert parts[..|parts| - 1] == Split(parent, '/');
  }

  /** Dropping the last segment removes exactly one `/`. */
  lemma {:induction false} DatasetDoiDropsOneSlash(fileDoi: string)
    ensures var doi := StripDoiPrefix(fileDoi);
      CountChar(doi, '/') >= 1 ==> CountChar(GetDatasetDoi(fileDoi), '/') == CountChar(doi, '/') - 1
  {
    var doi, r := StripDoiPrefix(fileDoi), GetDatasetDoi(fileDoi);
    CountZero(doi, '/');
    if '/' in doi {
      var last := doi[|r| + 1..];
      CountAppend(r + "/", last, '/');
      CountAppend(r, "/", '/');
      CountZero(last, '/');
    }
  }

  /** The prefixed and bare forms of a file DOI give the same dataset DOI. */
  lemma DatasetDoiExamples()
    ensures GetDatasetDoi("https://doi.org/10.1/ABC/1") == "10.1/ABC"
    ensures GetDatasetDoi("10.1/ABC/1") == "10.1/ABC"
  {
    assert StripDoiPrefix("https://doi.org/10.1/ABC/1") == "10.1/ABC" + "/" + "1";
    DatasetDoiOfChild("https://doi.org/10.1/ABC/1", "10.1/ABC", "1");
    assert !StartsWith("10.1/ABC/1", DOI_PREFIX);
    assert StripDoiPrefix("10.1/ABC/1") == "10.1/ABC" + "/" + "1";
    DatasetDoiOfChild("10.1/ABC/1", "10.1/ABC", "1");
  }

  /** A DOI with a single segment after the prefix has no dataset part. */
  lemma DatasetDoiOfSingleSegment()
    ensures GetDatasetDoi("https://doi.org/10.1") == ""
  {
    assert StripDoiPrefix("https://doi.org/10.1") == "10.1";
  }

  /** Lines 17-21 of `process_doi`: a findable DOI is to become registered,
      any other keeps its updated state, and the URL is to become the
      resolver URL of the dataset DOI. */
  method PlanUpdate(metadata: Metadata, doi: string)
    modifies metadata
    ensures metadata.updatedState ==
      if old(metadata.currentState) == Findable then Registered else old(metadata.updatedState)
    ensures metadata.updatedUrl == DOI_PREFIX + GetDatasetDoi(doi)
    ensures metadata.currentState == old(metadata.currentState)
    ensures metadata.currentUrl == old(metadata.currentUrl)
    ensures metadata.doi == old(metadata.doi)
  {
    var newDoi := DOI_PREFIX + GetDatasetDoi(doi);
    var state := metadata.GetCurrentState();
    if state == Findable {
      metadata.SetUpdatedState(Registered);
    }
    metadata.SetUpdatedUri(newDoi);
  }

  /** `process_doi` between its fetch and its submit: reads the dataset's
      fetched metadata, plans the update and returns the request body that
      would be submitted. A findable dataset is hidden; the URL is sent only
      when it is not already the resolver URL; the only ways to fail are an
      unreadable state and a dataset that already needs nothing. */
  method ProcessDoi(doi: string, fetched: Envelope) returns (r: Result<UpdateRequest>)
    ensures r == Err(InvalidState) <==> ParseState(fetched.data.attributes.state).Err?
    ensures
      && ParseState(fetched.data.attributes.state).Ok?
      && (|| ParseState(fetched.data.attributes.state).value == Findable
          || fetched.data.attributes.url != DOI_PREFIX + GetDatasetDoi(doi))
      ==> r.Ok?
    ensures r.Ok? ==> r.value.data.kind == "dois"
    ensures r.Ok? ==> r.value.data.attributes.Keys <= {"event", "url"}
    ensures ParseState(fetched.data.attributes.state) == Ok(Findable) ==>
      r.Ok? && "event" in r.value.data.attributes &&
      r.value.data.attributes["event"] == Hide.ToString()
    ensures r.Ok? && ParseState(fetched.data.attributes.state) != Ok(Findable) ==>
      "event" !in r.value.data.attributes
    ensures r.Ok? ==>
      ("url" in r.value.data.attributes <==>
       fetched.data.attributes.url != DOI_PREFIX + GetDatasetDoi(doi))
    ensures r.Ok? && "url" in r.value.data.attributes ==>
      r.value.data.attributes["url"] == DOI_PREFIX + GetDatasetDoi(doi)
    ensures r.Ok? ==>
      var state := ParseState(fetched.data.attributes.state).value;
      Apply(state, fetched.data.attributes.url, r.value) ==
        Some((if state == Findable then Registered else state, DOI_PREFIX + GetDatasetDoi(doi)))
    ensures r == Err(NoUpdateRequired) <==>
      && ParseState(fetched.data.attributes.state).Ok?
      && ParseState(fetched.data.attributes.state).value != Findable
      && fetched.data.attributes.url == DOI_PREFIX + GetDatasetDoi(doi)
    ensures r.Err? ==> r.error in {InvalidState, NoUpdateRequired}
  {
    var read := GetMetadataFromJson(fetched);
    if read.Err? {
      return Err(read.error);
    }
    var metadata := read.value;
    PlanUpdate(metadata, doi);
    r := metadata.GetUpdateJson();
  }
}
