/**
 * The review posting and edit form: the field rules, the five rating
 * choices, the request it sends for a new review and for an edit, the
 * edit-key guard, the delete request, and the key panel that replaces the
 * form once a review is posted.
 */
module ReviewForm {
  import opened Wrappers
  import opened Text
  import opened Urls
  import opened Requests

  /** The form's fields, all strings; the rating is the chosen option's value. */
  datatype ReviewValues = ReviewValues(rating: string, body: string, authorName: string, visitedAt: string, editKey: string)

  /** A stored review as the edit page passes it in; `visitedAt` is a timestamp. */
  datatype ReviewRecord = ReviewRecord(
    id: string,
    storeId: string,
    rating: int,
    body: string,
    authorName: Option<string>,
    visitedAt: Option<int>)

  datatype Issue = RatingRequired | BodyTooShort | BodyTooLong | AuthorNameTooLong

  const BodyMin := 10
  const BodyMax := 1000
  const AuthorNameMax := 30

  /** The schema's findings. */
  function Issues(v: ReviewValues): (r: set<Issue>)
    ensures RatingRequired in r <==> v.rating == ""
    ensures BodyTooShort in r <==> |v.body| < BodyMin
    ensures BodyTooLong in r <==> |v.body| > BodyMax
    ensures AuthorNameTooLong in r <==> |v.authorName| > AuthorNameMax
  {
    (if |v.rating| < 1 then {RatingRequired} else {})
    + (if |v.body| < BodyMin then {BodyTooShort} else {})
    + (if |v.body| > BodyMax then {BodyTooLong} else {})
    + (if |v.authorName| > AuthorNameMax then {AuthorNameTooLong} else {})
  }

  /** The values pass the schema exactly when these bounds hold. */
  lemma ValidValues(v: ReviewValues)
    ensures Issues(v) == {} <==>
      && v.rating != ""
      && BodyMin <= |v.body| <= BodyMax
      && |v.authorName| <= AuthorNameMax
  {
    var r := Issues(v);
    if r != {} {
      var i :| i in r;
    }
  }

  /** The rating select's options, best first: "5" down to "1". */
  function RatingChoices(): (cs: seq<string>)
    ensures |cs| == 5
  {
    [NatToDecimal(5), NatToDecimal(4), NatToDecimal(3), NatToDecimal(2), NatToDecimal(1)]
  }

  /**
   * Every option reads back as a rating from 1 to 5, best first, and
   * satisfies the rating rule; every rating from 1 to 5 is offered.
   */
  lemma RatingChoicesCoverOneToFive()
    ensures forall i :: 0 <= i < 5 ==> RatingChoices()[i] != "" && ParseDigits(RatingChoices()[i]) == Some(5 - i)
    ensures forall n: nat :: 1 <= n <= 5 ==> NatToDecimal(n) in RatingChoices()
  {
    var cs := RatingChoices();
    forall i | 0 <= i < 5
      ensures cs[i] != "" && ParseDigits(cs[i]) == Some(5 - i)
    {
      DecimalRoundTrip(5 - i);
    }
    forall n: nat | 1 <= n <= 5
      ensures NatToDecimal(n) in cs
    {
      assert cs[5 - n] == NatToDecimal(n);
    }
  }

  /**
   * The fields' starting values: the stored review's own values when
   * editing (`formatDate` stands for formatting a timestamp as
   * `yyyy-MM-dd`), empty strings otherwise, and an empty edit key.
   */
  function DefaultsOf(initial: Option<ReviewRecord>, formatDate: int -> string): (v: ReviewValues)
    ensures v.editKey == ""
    ensures initial.None? ==> v == ReviewValues("", "", "", "", "")
    ensures initial.Some? ==>
      && v.rating == IntToDecimal(initial.value.rating)
      && v.body == initial.value.body
      && v.authorName == initial.value.authorName.GetOr("")
      && v.visitedAt == (if initial.value.visitedAt.Some? then formatDate(initial.value.visitedAt.value) else "")
  {
    match initial
    case None => ReviewValues("", "", "", "", "")
    case Some(r) =>
      var visited := if r.visitedAt.Some? then formatDate(r.visitedAt.value) else "";
      ReviewValues(IntToDecimal(r.rating), r.body, r.authorName.GetOr(""), visited, "")
  }

  /**
   * Editing a stored review with a rating from 1 to 5 starts on one of the
   * offered options, which passes the rating rule.
   */
  lemma StoredRatingIsOffered(initial: ReviewRecord, formatDate: int -> string)
    requires 1 <= initial.rating <= 5
    ensures DefaultsOf(Some(initial), formatDate).rating in RatingChoices()
    ensures RatingRequired !in Issues(DefaultsOf(Some(initial), formatDate))
  {
    RatingChoicesCoverOneToFive();
  }

  datatype Submission = Rejected(issues: set<Issue>) | KeyRequired | Send(request: Request<ReviewValues>)

  /** `/api/reviews/${initialData?.id}`. */
  function ReviewUrl(initial: Option<ReviewRecord>): string {
    "/api/reviews/" + IdText(if initial.Some? then Some(initial.value.id) else None)
  }

  /** `/api/stores/${storeId}/reviews`. */
  function StoreReviewsUrl(storeId: Option<string>): string {
    "/api/stores/" + IdText(storeId) + "/reviews"
  }

  /**
   * `form.handleSubmit(onSubmit)`: the schema first, then the edit-key
   * guard, then POST to the store's reviews or PATCH the review, with
   * every field as the body.
   */
  function Decide(isEdit: bool, storeId: Option<string>, initial: Option<ReviewRecord>, v: ReviewValues): (d: Submission)
    ensures d.Rejected? <==> Issues(v) != {}
    ensures d.Rejected? ==> d.issues == Issues(v)
    ensures d.KeyRequired? <==> Issues(v) == {} && isEdit && v.editKey == ""
    ensures d.Send? ==> d.request.body == Some(v)
    ensures d.Send? && isEdit ==> d.request.verb == Patch && d.request.url == ReviewUrl(initial) && v.editKey != ""
    ensures d.Send? && !isEdit ==> d.request.verb == Post && d.request.url == StoreReviewsUrl(storeId)
  {
    var issues := Issues(v);
    if issues != {} then Rejected(issues)
    else if isEdit && v.editKey == "" then KeyRequired
    else if isEdit then Send(Request(Patch, ReviewUrl(initial), Some(v)))
    else Send(Request(Post, StoreReviewsUrl(storeId), Some(v)))
  }

  /** A new review is posted under the store's own path. */
  lemma PostTargetsStore(storeId: string, v: ReviewValues)
    requires Issues(v) == {}
    ensures var d := Decide(false, Some(storeId), None, v);
      d.Send? && d.request.url == "/api/stores/" + storeId + "/reviews"
  {
  }

  /** `handleDelete`: DELETE `/api/reviews/{id}?key={key}` once confirmed with a key. */
  function DeleteRequest(confirmed: bool, initial: Option<ReviewRecord>, key: string): (r: Option<Request<ReviewValues>>)
    ensures r.Some? <==> confirmed && key != ""
    ensures r.Some? ==> r.value.verb == Delete && r.value.body == None
    ensures r.Some? ==> r.value.url == WithKey(ReviewUrl(initial), key)
  {
    if !confirmed || key == "" then None
    else Some(Request(Delete, WithKey(ReviewUrl(initial), key), None))
  }

  /**
   * The delete request reaches the review's own path, and the key issued
   * when it was posted reaches the server unchanged.
   */
  lemma DeleteCarriesIssuedKey(initial: ReviewRecord, random: seq<Byte>)
    requires '?' !in initial.id && '#' !in initial.id && |random| == 8
    ensures var r := DeleteRequest(true, Some(initial), HexEncode(random));
      && r.Some?
      && PathOf(r.value.url) == "/api/reviews/" + initial.id
      && QueryParam(r.value.url, "key") == Some(HexEncode(random))
  {
    var path := "/api/reviews/" + initial.id;
    assert ReviewUrl(Some(initial)) == path;
    assert '?' !in path && '#' !in path;
    IssuedKeyReadsBack(path, random);
  }

  /** `/stores/${id}` when the id is a non-empty string, the listing otherwise. */
  function StorePage(storeId: Option<string>): (path: string)
    ensures storeId.Some? && storeId.value != "" ==> path == "/stores/" + storeId.value
    ensures !(storeId.Some? && storeId.value != "") ==> path == "/stores"
  {
    if storeId.Some? && storeId.value != "" then "/stores/" + storeId.value else "/stores"
  }

  /** The review form component's state: its field values and the key returned by a post. */
  class ReviewFormState {
    const storeId: Option<string>
    const initial: Option<ReviewRecord>
    const isEdit: bool
    const defaults: ReviewValues
    var values: ReviewValues
    var createdKey: Option<string>

    constructor(storeId: Option<string>, initial: Option<ReviewRecord>, isEdit: bool, formatDate: int -> string)
      ensures this.storeId == storeId && this.initial == initial && this.isEdit == isEdit
      ensures defaults == DefaultsOf(initial, formatDate) && values == defaults
      ensures createdKey == None
    {
      this.storeId := storeId;
      this.initial := initial;
      this.isEdit := isEdit;
      defaults := DefaultsOf(initial, formatDate);
      values := DefaultsOf(initial, formatDate);
      createdKey := None;
    }

    /** `editKey ?`: the key panel takes the form's place. */
    predicate ShowsKeyPanel()
      reads this
    {
      createdKey.Some? && createdKey.value != ""
    }

    /** The user edits the fields. */
    method Fill(v: ReviewValues)
      modifies this
      ensures values == v && createdKey == old(createdKey)
    {
      values := v;
    }

    /**
     * `onSubmit`. A posted review keeps the returned key and resets the
     * fields; an updated review opens the page of the store the server
     * names in its reply.
     */
    method Submit(reply: Reply) returns (d: Submission, outcome: Outcome)
      requires !ShowsKeyPanel()
      modifies this
      ensures d == Decide(isEdit, storeId, initial, old(values))
      ensures !d.Send? ==> outcome == Stay
      ensures d.Send? && reply.Failed? ==> outcome == ErrorToast(ErrorMessage(reply.error, "Failed to submit review"))
      ensures d.Send? && reply.Ok? && isEdit ==> outcome == GoTo(StorePage(reply.storeId))
      ensures d.Send? && reply.Ok? && !isEdit ==>
        outcome == if reply.editKey != "" then KeyPanel(reply.editKey) else Stay
      ensures d.Send? && !isEdit && reply.Ok? ==> createdKey == Some(reply.editKey) && values == defaults
      ensures !(d.Send? && !isEdit && reply.Ok?) ==> createdKey == old(createdKey) && values == old(values)
    {
      d := Decide(isEdit, storeId, initial, values);
      if !d.Send? {
        outcome := Stay;
      } else if reply.Failed? {
        outcome := ErrorToast(ErrorMessage(reply.error, "Failed to submit review"));
      } else if isEdit {
        outcome := GoTo(StorePage(reply.storeId));
      } else {
        createdKey := Some(reply.editKey);
        values := defaults;
        outcome := if reply.editKey != "" then KeyPanel(reply.editKey) else Stay;
      }
    }

    /**
     * `handleDelete`, behind the button only edit mode shows, with the key
     * read from the current field values. A
     * deleted review sends the user to its store's page.
     */
    method Delete(confirmed: bool, reply: Reply) returns (r: Option<Request<ReviewValues>>, outcome: Outcome)
      requires isEdit
      ensures r == DeleteRequest(confirmed, initial, values.editKey)
      ensures r.None? ==> outcome == Stay
      ensures r.Some? && reply.Ok? ==>
        outcome == GoTo(StorePage(if initial.Some? then Some(initial.value.storeId) else None))
      ensures r.Some? && reply.Failed? ==> outcome == ErrorToast(ErrorMessage(reply.error, "Failed to delete"))
    {
      r := DeleteRequest(confirmed, initial, values.editKey);
      if r.None? {
        outcome := Stay;
      } else if reply.Ok? {
        outcome := GoTo(StorePage(if initial.Some? then Some(initial.value.storeId) else None));
      } else {
        outcome := ErrorToast(ErrorMessage(reply.error, "Failed to delete"));
      }
    }
  }

  /**
   * A review posted with a valid choice of rating and accepted with an
   * issued key shows the key panel, with the fields cleared behind it.
   */
  method PostThenShowKey(storeId: string, choice: nat, body: string, random: seq<Byte>, formatDate: int -> string)
    returns (request: Option<Request<ReviewValues>>, outcome: Outcome, shown: bool, cleared: bool)
    requires choice < 5 && BodyMin <= |body| <= BodyMax && |random| == 8
    ensures request.Some? && request.value.verb == Post
    ensures request.value.url == "/api/stores/" + storeId + "/reviews"
    ensures outcome == KeyPanel(HexEncode(random)) && shown && cleared
  {
    RatingChoicesCoverOneToFive();
    var form := new ReviewFormState(Some(storeId), None, false, formatDate);
    var v := ReviewValues(RatingChoices()[choice], body, "", "", "");
    form.Fill(v);
    var d;
    d, outcome := form.Submit(Ok(HexEncode(random), None));
    assert d.Send?;
    request := Some(d.request);
    shown := form.ShowsKeyPanel();
    cleared := form.values == ReviewValues("", "", "", "", "");
  }
}
