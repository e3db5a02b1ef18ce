/**
 * The store registration and edit form: the field rules it validates
 * before submitting, the request it sends for create and edit, the guard
 * on the edit key, the delete request, and the key panel shown after a
 * successful registration.
 */
module StoreForm {
  import opened Wrappers
  import opened Text
  import opened Urls
  import opened Records
  import opened Requests
  import StoresApi

  /** The form's fields; every field holds a string (empty when unset). */
  datatype StoreValues = StoreValues(
    name: string,
    address: string,
    phone: string,
    businessHours: string,
    closedDays: string,
    websiteUrl: string,
    genre: string,
    description: string,
    editKey: string)

  /** The messages the schema can raise. */
  datatype Issue = NameRequired | NameTooLong | AddressRequired | AddressTooLong | InvalidUrl

  const NameMax := 80
  const AddressMax := 120

  /**
   * The schema's findings. `isUrl` stands for the schema library's URL
   * check.
   */
  function Issues(v: StoreValues, isUrl: string -> bool): (r: set<Issue>)
    ensures NameRequired in r <==> v.name == ""
    ensures NameTooLong in r <==> |v.name| > NameMax
    ensures AddressRequired in r <==> v.address == ""
    ensures AddressTooLong in r <==> |v.address| > AddressMax
    ensures InvalidUrl in r <==> v.websiteUrl != "" && !isUrl(v.websiteUrl)
  {
    (if |v.name| < 1 then {NameRequired} else {})
    + (if |v.name| > NameMax then {NameTooLong} else {})
    + (if |v.address| < 1 then {AddressRequired} else {})
    + (if |v.address| > AddressMax then {AddressTooLong} else {})
    + (if v.websiteUrl != "" && !isUrl(v.websiteUrl) then {InvalidUrl} else {})
  }

  /** The values pass the schema exactly when these bounds hold. */
  lemma ValidValues(v: StoreValues, isUrl: string -> bool)
    ensures Issues(v, isUrl) == {} <==>
      && 1 <= |v.name| <= NameMax
      && 1 <= |v.address| <= AddressMax
      && (v.websiteUrl == "" || isUrl(v.websiteUrl))
  {
    var r := Issues(v, isUrl);
    if r != {} {
      var i :| i in r;
    }
  }

  /** What pressing the submit button leads to. */
  datatype Submission = Rejected(issues: set<Issue>) | KeyRequired | Send(request: Request<StoreValues>)

  /** `/api/stores/${initialData?.id}`. */
  function StoreUrl(initialId: Option<string>): string {
    "/api/stores/" + IdText(initialId)
  }

  /**
   * `form.handleSubmit(onSubmit)`: the schema first, then the edit-key
   * guard, then POST `/api/stores` or PATCH `/api/stores/{id}` with every
   * field as the body.
   */
  function Decide(isEdit: bool, initialId: Option<string>, v: StoreValues, isUrl: string -> bool): (d: Submission)
    ensures d.Rejected? <==> Issues(v, isUrl) != {}
    ensures d.Rejected? ==> d.issues == Issues(v, isUrl)
    ensures d.KeyRequired? <==> Issues(v, isUrl) == {} && isEdit && v.editKey == ""
    ensures d.Send? ==> d.request.body == Some(v)
    ensures d.Send? && isEdit ==> d.request.verb == Patch && d.request.url == StoreUrl(initialId) && v.editKey != ""
    ensures d.Send? && !isEdit ==> d.request.verb == Post && d.request.url == "/api/stores"
  {
    var issues := Issues(v, isUrl);
    if issues != {} then Rejected(issues)
    else if isEdit && v.editKey == "" then KeyRequired
    else if isEdit then Send(Request(Patch, StoreUrl(initialId), Some(v)))
    else Send(Request(Post, "/api/stores", Some(v)))
  }

  /**
   * `handleDelete`: nothing unless the user confirms and a key is typed;
   * then DELETE `/api/stores/{id}?key={key}`.
   */
  function DeleteRequest(confirmed: bool, initialId: Option<string>, key: string): (r: Option<Request<StoreValues>>)
    ensures r.Some? <==> confirmed && key != ""
    ensures r.Some? ==> r.value.verb == Delete && r.value.body == None
    ensures r.Some? ==> r.value.url == WithKey(StoreUrl(initialId), key)
  {
    if !confirmed || key == "" then None
    else Some(Request(Delete, WithKey(StoreUrl(initialId), key), None))
  }

  /**
   * The delete request reaches the store's own path, and the key issued at
   * registration reaches the server unchanged.
   */
  lemma DeleteCarriesIssuedKey(id: string, random: seq<Byte>)
    requires '?' !in id && '#' !in id && |random| == 8
    ensures var r := DeleteRequest(true, Some(id), HexEncode(random));
      && r.Some?
      && PathOf(r.value.url) == "/api/stores/" + id
      && QueryParam(r.value.url, "key") == Some(HexEncode(random))
  {
    var path := "/api/stores/" + id;
    assert StoreUrl(Some(id)) == path;
    assert '?' !in path && '#' !in path;
    IssuedKeyReadsBack(path, random);
  }

  /** `initialData?.x || ''` for every field, and an empty edit key. */
  function DefaultsOf(initial: Option<Columns>): (v: StoreValues)
    ensures v.editKey == ""
    ensures initial.None? ==> v == StoreValues("", "", "", "", "", "", "", "", "")
    ensures initial.Some? ==>
      && v.name == initial.value.name
      && v.address == initial.value.address
      && v.phone == initial.value.phone.GetOr("")
      && v.businessHours == initial.value.businessHours.GetOr("")
      && v.closedDays == initial.value.closedDays.GetOr("")
      && v.websiteUrl == initial.value.websiteUrl.GetOr("")
      && v.genre == initial.value.genre.GetOr("")
      && v.description == initial.value.description.GetOr("")
  {
    match initial
    case None => StoreValues("", "", "", "", "", "", "", "", "")
    case Some(c) =>
      StoreValues(c.name, c.address, c.phone.GetOr(""), c.businessHours.GetOr(""), c.closedDays.GetOr(""),
                  c.websiteUrl.GetOr(""), c.genre.GetOr(""), c.description.GetOr(""), "")
  }

  /** `JSON.stringify(values)` as the registration endpoint reads it: every field present. */
  function AsInput(v: StoreValues): StoresApi.StoreInput {
    StoresApi.StoreInput(Some(v.name), Some(v.address), Some(v.phone), Some(v.businessHours),
                         Some(v.closedDays), Some(v.websiteUrl), Some(v.genre), Some(v.description))
  }

  /**
   * Registering values that pass the schema and then opening the edit form
   * of the created store starts from exactly those values, with an empty key.
   */
  lemma EditStartsFromRegistered(v: StoreValues, isUrl: string -> bool, table: seq<StoreRow>, random: seq<Byte>,
                                 id: string, now: int, hash: string -> string)
    requires Issues(v, isUrl) == {} && |random| == 8
    ensures var out := StoresApi.Post(table, AsInput(v), random, id, now, hash);
      && out.response.Created?
      && DefaultsOf(Some(out.response.store)) == v.(editKey := "")
  {
    var out := StoresApi.Post(table, AsInput(v), random, id, now, hash);
    assert out.response.Created?;
    var d := DefaultsOf(Some(out.response.store));
    assert d.name == v.name && d.address == v.address && d.phone == v.phone;
  }

  /**
   * A stored store whose columns meet the schema opens an edit form that
   * passes it; submitting it unchanged is stopped only by the missing key.
   */
  lemma StoredStoreIsValid(c: Columns, isUrl: string -> bool)
    requires 1 <= |c.name| <= NameMax && 1 <= |c.address| <= AddressMax
    requires c.websiteUrl.None? || c.websiteUrl.value == "" || isUrl(c.websiteUrl.value)
    ensures Issues(DefaultsOf(Some(c)), isUrl) == {}
    ensures Decide(true, Some(c.id), DefaultsOf(Some(c)), isUrl) == KeyRequired
  {
    ValidValues(DefaultsOf(Some(c)), isUrl);
  }

  /** The form component's state: its field values and the key returned by a registration. */
  class StoreFormState {
    const isEdit: bool
    const initialId: Option<string>
    const defaults: StoreValues
    var values: StoreValues
    var createdKey: Option<string>

    constructor(isEdit: bool, initial: Option<Columns>)
      ensures this.isEdit == isEdit
      ensures initialId == (if initial.Some? then Some(initial.value.id) else None)
      ensures defaults == DefaultsOf(initial) && values == defaults
      ensures createdKey == None
    {
      this.isEdit := isEdit;
      initialId := if initial.Some? then Some(initial.value.id) else None;
      defaults := DefaultsOf(initial);
      values := DefaultsOf(initial);
      createdKey := None;
    }

    /** `if (createdKey)`: the key panel replaces the form. */
    predicate ShowsKeyPanel()
      reads this
    {
      createdKey.Some? && createdKey.value != ""
    }

    /** The user edits the fields. */
    method Fill(v: StoreValues)
      modifies this
      ensures values == v && createdKey == old(createdKey)
    {
      values := v;
    }

    /**
     * `onSubmit`. `isUrl` is the schema's URL check and `reply` the server's
     * answer should a request go out. Only a successful registration keeps
     * the returned key and resets the fields; a successful edit opens the
     * store's page.
     */
    method Submit(isUrl: string -> bool, reply: Reply) returns (d: Submission, outcome: Outcome)
      requires !ShowsKeyPanel()
      modifies this
      ensures d == Decide(isEdit, initialId, old(values), isUrl)
      ensures !d.Send? ==> outcome == Stay
      ensures d.Send? && reply.Failed? ==> outcome == ErrorToast(ErrorMessage(reply.error, "Failed to submit"))
      ensures d.Send? && reply.Ok? && isEdit ==> outcome == GoTo("/stores/" + IdText(initialId))
      ensures d.Send? && reply.Ok? && !isEdit ==>
        outcome == if reply.editKey != "" then KeyPanel(reply.editKey) else Stay
      ensures d.Send? && !isEdit && reply.Ok? ==> createdKey == Some(reply.editKey) && values == defaults
      ensures !(d.Send? && !isEdit && reply.Ok?) ==> createdKey == old(createdKey) && values == old(values)
    {
      d := Decide(isEdit, initialId, values, isUrl);
      if !d.Send? {
        outcome := Stay;
      } else if reply.Failed? {
        outcome := ErrorToast(ErrorMessage(reply.error, "Failed to submit"));
      } else if isEdit {
        outcome := GoTo("/stores/" + IdText(initialId));
      } else {
        createdKey := Some(reply.editKey);
        values := defaults;
        outcome := if reply.editKey != "" then KeyPanel(reply.editKey) else Stay;
      }
    }

    /**
     * `handleDelete`, behind the button only edit mode shows, with the key
     * read from the current field values. A
     * deleted store sends the user back to the listing.
     */
    method Delete(confirmed: bool, reply: Reply) returns (r: Option<Request<StoreValues>>, outcome: Outcome)
      requires isEdit
      ensures r == DeleteRequest(confirmed, initialId, values.editKey)
      ensures r.None? ==> outcome == Stay
      ensures r.Some? && reply.Ok? ==> outcome == GoTo("/stores")
      ensures r.Some? && reply.Failed? ==> outcome == ErrorToast(ErrorMessage(reply.error, "Failed to delete"))
    {
      r := DeleteRequest(confirmed, initialId, values.editKey);
      if r.None? {
        outcome := Stay;
      } else if reply.Ok? {
        outcome := GoTo("/stores");
      } else {
        outcome := ErrorToast(ErrorMessage(reply.error, "Failed to delete"));
      }
    }
  }

  /**
   * A registration that the server accepts with a 16-character key shows
   * the key panel, with the form reset behind it.
   */
  method RegisterThenShowKey(v: StoreValues, isUrl: string -> bool, random: seq<Byte>) returns (shown: bool, key: Option<string>, outcome: Outcome, cleared: bool)
    requires Issues(v, isUrl) == {} && |random| == 8
    ensures shown && key == Some(HexEncode(random)) && outcome == KeyPanel(HexEncode(random)) && cleared
  {
    var form := new StoreFormState(false, None);
    form.Fill(v);
    var d;
    d, outcome := form.Submit(isUrl, Ok(HexEncode(random), None));
    assert d.Send?;
    assert |HexEncode(random)| == 16;
    shown := form.ShowsKeyPanel();
    key := form.createdKey;
    cleared := form.values == DefaultsOf(None);
  }

  /** In edit mode an empty key stops the submission and changes nothing. */
  method EditWithoutKey(initial: Columns, v: StoreValues, isUrl: string -> bool, reply: Reply)
    returns (d: Submission, outcome: Outcome, unchangedValues: bool)
    requires Issues(v, isUrl) == {} && v.editKey == ""
    ensures d == KeyRequired && outcome == Stay && unchangedValues
  {
    var form := new StoreFormState(true, Some(initial));
    form.Fill(v);
    d, outcome := form.Submit(isUrl, reply);
    unchangedValues := form.values == v && form.createdKey == None;
  }

  /**
   * Deleting with the key issued at registration sends it to the store's
   * own path unchanged, and a successful delete returns to the listing.
   */
  method DeleteWithIssuedKey(initial: Columns, random: seq<Byte>, reply: Reply)
    returns (r: Option<Request<StoreValues>>, outcome: Outcome)
    requires '?' !in initial.id && '#' !in initial.id && |random| == 8 && reply.Ok?
    ensures r.Some? && r.value.verb == Delete
    ensures PathOf(r.value.url) == "/api/stores/" + initial.id
    ensures QueryParam(r.value.url, "key") == Some(HexEncode(random))
    ensures outcome == GoTo("/stores")
  {
    var form := new StoreFormState(true, Some(initial));
    form.Fill(form.values.(editKey := HexEncode(random)));
    r, outcome := form.Delete(true, reply);
    DeleteCarriesIssuedKey(initial.id, random);
  }
}
