/** The subscribe-to-feed view: the validation of the feed choices a
    previous attempt proposed, the URL the form settles on, and the HTTP
    status each outcome of the creation attempt gets. Fetching and parsing
    the feed are not modelled: their outcome is an input. */
module SubscribeView {
  import opened Common

  /** A JSON document as `json.loads` returns it. */
  datatype Json =
    | JNull
    | JBool(b: bool)
    | JNumber(n: int)
    | JString(s: string)
    | JArray(items: seq<Json>)
    | JObject(fields: map<string, Json>)

  /** The JSON library: `json.loads` gives None on a `JSONDecodeError`. */
  datatype JsonCodec = JsonCodec(loads: string -> Option<Json>, dumps: Json -> string)

  /** What the library guarantees and the view relies on: what `dumps`
      writes, `loads` reads back, and it is never the empty string. */
  ghost predicate RoundTrips(codec: JsonCodec) {
    forall j :: codec.loads(codec.dumps(j)) == Some(j) && codec.dumps(j) != ""
  }

  /** The exceptions the validation loop can raise: `len()` of a number, a
      boolean or null, and `value[0]` on an object with two keys. */
  datatype PyError = TypeError | KeyError

  datatype LoadOutcome = Loaded(choices: seq<Json>) | Raised(error: PyError)

  /** The test the loop applies to one element: `len(value) != 2` rejects,
      and so does an item that is not a string. A string of two characters
      passes, since each of its items is a string of one character. */
  datatype Verdict = Pass | Reject | Raise(error: PyError)

  function Check(value: Json): (v: Verdict)
    ensures v == Raise(TypeError) <==> value.JNull? || value.JBool? || value.JNumber?
    ensures v == Raise(KeyError) <==> value.JObject? && |value.fields| == 2
  {
    match value
    case JNull => Raise(TypeError)
    case JBool(_) => Raise(TypeError)
    case JNumber(_) => Raise(TypeError)
    case JString(s) => if |s| != 2 then Reject else Pass
    case JArray(items) =>
      if |items| != 2 then Reject
      else if items[0].JString? && items[1].JString? then Pass
      else Reject
    case JObject(fields) => if |fields| != 2 then Reject else Raise(KeyError)
  }

  /** The outcome of checking `items` from the left: the first element that
      does not pass decides. */
  function Scan(items: seq<Json>): (r: Option<Verdict>)
    ensures r.None? <==> forall i :: 0 <= i < |items| ==> Check(items[i]) == Pass
    ensures r.Some? ==> r.value != Pass
    ensures r.Some? ==> exists i :: 0 <= i < |items| && Check(items[i]) == r.value && forall j :: 0 <= j < i ==> Check(items[j]) == Pass
  {
    if |items| == 0 then None
    else if Check(items[0]) != Pass then Some(Check(items[0]))
    else
      var rest := Scan(items[1..]);
      assert forall i :: 1 <= i < |items| ==> items[i] == items[1..][i - 1];
      if rest.Some? then
        var i :| 0 <= i < |items[1..]| && Check(items[1..][i]) == rest.value && forall j :: 0 <= j < i ==> Check(items[1..][j]) == Pass;
        assert Check(items[i + 1]) == rest.value;
        rest
      else rest
  }

  /** What `_load_proposed_feed_choices` returns for a parse result. */
  function ProposedChoices(parsed: Option<Json>): (r: LoadOutcome)
    ensures parsed.None? || !parsed.value.JArray? ==> r == Loaded([])
  {
    match parsed
    case None => Loaded([])
    case Some(JArray(items)) =>
      (match Scan(items)
       case None => Loaded(items)
       case Some(Raise(e)) => Raised(e)
       case Some(_) => Loaded([]))
    case Some(_) => Loaded([])
  }

  /** `_load_proposed_feed_choices(raw_choices)`: parse, then walk the
      elements and stop at the first one that is not a pair. */
  method LoadProposedFeedChoices(raw: string, codec: JsonCodec) returns (r: LoadOutcome)
    ensures r == ProposedChoices(codec.loads(raw))
  {
    var parsed := codec.loads(raw);
    if parsed.None? || !parsed.value.JArray? {
      return Loaded([]);
    }
    var items := parsed.value.items;
    var i := 0;
    while i < |items|
      invariant 0 <= i <= |items|
      invariant forall j :: 0 <= j < i ==> Check(items[j]) == Pass
    {
      match Check(items[i]) {
        case Pass =>
        case Reject =>
          FirstFailureDecides(items, i);
          return Loaded([]);
        case Raise(e) =>
          FirstFailureDecides(items, i);
          return Raised(e);
      }
      i := i + 1;
    }
    r := Loaded(items);
  }

  lemma FirstFailureDecides(items: seq<Json>, i: int)
    requires 0 <= i < |items|
    requires forall j :: 0 <= j < i ==> Check(items[j]) == Pass
    requires Check(items[i]) != Pass
    ensures Scan(items) == Some(Check(items[i]))
  {
    var r := Scan(items);
    var k :| 0 <= k < |items| && Check(items[k]) == r.value && forall j :: 0 <= j < k ==> Check(items[j]) == Pass;
    assert k == i;
  }

  // ---------------------------------------------------------------------
  // The form.

  /** The `feed_choices` field as the constructor leaves it. */
  datatype FeedChoicesField = FeedChoicesField(choices: seq<Json>, required: bool, urlReadonly: bool)

  /** `SubscribeToFeedForm.__init__`: when the submitted data holds a
      non-empty `proposed_feed_choices`, the field becomes required, offers
      the loaded choices and the URL becomes read-only. */
  function BuildFeedChoices(proposed: Option<string>, codec: JsonCodec): (r: Result<FeedChoicesField, PyError>)
    ensures proposed.None? || proposed.value == "" ==> r == Success(FeedChoicesField([], false, false))
    ensures r.Success? ==> (r.value.required <==> r.value.urlReadonly)
    ensures r.Success? && r.value.required <==>
      proposed.Some? && proposed.value != "" && ProposedChoices(codec.loads(proposed.value)).Loaded?
    ensures r.Success? && r.value.required ==> r.value.choices == ProposedChoices(codec.loads(proposed.value)).choices
    ensures r.Failure? ==> ProposedChoices(codec.loads(proposed.value)) == Raised(r.error)
  {
    if proposed.None? || proposed.value == "" then Success(FeedChoicesField([], false, false))
    else
      match ProposedChoices(codec.loads(proposed.value))
      case Loaded(cs) => Success(FeedChoicesField(cs, true, true))
      case Raised(e) => Failure(e)
  }

  /** `feed_url`: the chosen feed when one was chosen, the URL otherwise. */
  function FeedUrl(feedChoice: Option<string>, url: string): (r: string)
    ensures feedChoice.Some? && feedChoice.value != "" ==> r == feedChoice.value
    ensures feedChoice.None? || feedChoice.value == "" ==> r == url
  {
    OrElse(if feedChoice.Some? then feedChoice.value else "", url)
  }

  // ---------------------------------------------------------------------
  // The outcome of a POST.

  /** How the creation attempt ended: the form check, the exceptions
      `_handle_creation` catches, and the `created` flag of
      `create_from_metadata`. */
  datatype Attempt =
    | FormInvalid
    | FetchFailed
    | NoFeedUrlFound
    | MultipleFeedsFound(feedUrls: seq<(string, string)>)
    | FeedFileTooBig
    | InvalidFeedFile
    | ValueErrorRaised
    | TypeErrorRaised
    | Finished(created: bool)

  /** The form the view renders next: the submitted one, an empty one, or
      a new one built from the URL and the proposed choices. */
  datatype NextForm = Submitted | Empty | Reproposed(url: string, proposedFeedChoices: string)

  /** The Python value `e.feed_urls` stands for, as JSON: a list of
      (url, title) pairs, each written as a two-element array. */
  function EncodeUrls(urls: seq<(string, string)>): (j: Json)
    ensures j.JArray? && |j.items| == |urls|
    ensures forall i :: 0 <= i < |urls| ==> j.items[i] == JArray([JString(urls[i].0), JString(urls[i].1)])
  {
    JArray(seq(|urls|, i requires 0 <= i < |urls| => JArray([JString(urls[i].0), JString(urls[i].1)])))
  }

  /** `_handle_creation`: the status and the form for each outcome. */
  function HandleCreation(attempt: Attempt, feedUrl: string, codec: JsonCodec): (r: (HttpStatus, NextForm))
    ensures r.1.Reproposed? <==> attempt.MultipleFeedsFound?
    ensures r.1 == Empty <==> r.0 == Created
  {
    match attempt
    case FormInvalid => (BadRequest, Submitted)
    case FetchFailed => (NotAcceptable, Submitted)
    case NoFeedUrlFound => (BadRequest, Submitted)
    case MultipleFeedsFound(urls) => (BadRequest, Reproposed(feedUrl, codec.dumps(EncodeUrls(urls))))
    case FeedFileTooBig => (BadRequest, Submitted)
    case InvalidFeedFile => (BadRequest, Submitted)
    case ValueErrorRaised => (BadRequest, Submitted)
    case TypeErrorRaised => (BadRequest, Submitted)
    case Finished(created) => if created then (Created, Empty) else (Conflict, Submitted)
  }

  /** `subscribe_to_feed_view`: a GET renders an empty form with 200, a
      POST goes through `_handle_creation`. */
  function SubscribeToFeedView(isGet: bool, attempt: Attempt, feedUrl: string, codec: JsonCodec): (r: (HttpStatus, NextForm))
    ensures isGet ==> r == (Ok, Empty)
    ensures !isGet ==> r == HandleCreation(attempt, feedUrl, codec)
  {
    if isGet then (Ok, Empty) else HandleCreation(attempt, feedUrl, codec)
  }

  // ---------------------------------------------------------------------
  // Properties

  /** The status of each outcome, as the view's tests expect it: 400 for
      an invalid form and for every feed that cannot be used, 406 when the
      fetch fails, 409 when the user already has the feed, 201 when it was
      created. */
  lemma StatusCodes(attempt: Attempt, feedUrl: string, codec: JsonCodec)
    ensures var c := Code(HandleCreation(attempt, feedUrl, codec).0);
      && (c == 201 <==> attempt == Finished(true))
      && (c == 406 <==> attempt == FetchFailed)
      && (c == 409 <==> attempt == Finished(false))
      && (c == 400 <==> !attempt.Finished? && attempt != FetchFailed)
  {
  }

  /** Every outcome other than the multiple-feeds one and success renders
      the submitted form again. */
  lemma SubmittedFormKept(attempt: Attempt, feedUrl: string, codec: JsonCodec)
    requires !attempt.MultipleFeedsFound? && attempt != Finished(true)
    ensures HandleCreation(attempt, feedUrl, codec).1 == Submitted
  {
  }

  /** A loaded list holds pairs only: each element is a two-element array
      of strings or a two-character string, and a non-empty one is the
      parsed list itself. */
  lemma LoadedAreAllPairs(parsed: Option<Json>)
    ensures ProposedChoices(parsed).Loaded? ==>
      forall i :: 0 <= i < |ProposedChoices(parsed).choices| ==> Check(ProposedChoices(parsed).choices[i]) == Pass
    ensures ProposedChoices(parsed).Loaded? && ProposedChoices(parsed).choices != [] ==>
      parsed == Some(JArray(ProposedChoices(parsed).choices))
  {
  }

  /** A list of pairs comes back unchanged; one element that is not a pair
      and comes before any element that raises empties the list. */
  lemma PairsLoadUnchanged(items: seq<Json>)
    ensures (forall i :: 0 <= i < |items| ==> Check(items[i]) == Pass) ==> ProposedChoices(Some(JArray(items))) == Loaded(items)
    ensures forall i :: 0 <= i < |items| && Check(items[i]) == Reject && (forall j :: 0 <= j < i ==> Check(items[j]) == Pass) ==>
      ProposedChoices(Some(JArray(items))) == Loaded([])
  {
    forall i | 0 <= i < |items| && Check(items[i]) == Reject && (forall j :: 0 <= j < i ==> Check(items[j]) == Pass)
      ensures ProposedChoices(Some(JArray(items))) == Loaded([])
    {
      FirstFailureDecides(items, i);
    }
  }

  /** The form built for the re-proposed choices makes the choice required
      and offers exactly the feeds that were found, in their order. */
  lemma ReproposedChoicesRoundTrip(urls: seq<(string, string)>, feedUrl: string, codec: JsonCodec)
    requires RoundTrips(codec)
    ensures var next := HandleCreation(MultipleFeedsFound(urls), feedUrl, codec).1;
      && next.Reproposed? && next.url == feedUrl
      && BuildFeedChoices(Some(next.proposedFeedChoices), codec) == Success(FeedChoicesField(EncodeUrls(urls).items, true, true))
  {
    var j := EncodeUrls(urls);
    assert codec.loads(codec.dumps(j)) == Some(j) && codec.dumps(j) != "";
    assert forall i :: 0 <= i < |j.items| ==> Check(j.items[i]) == Pass;
  }
}
