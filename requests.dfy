/**
 * The requests the two client forms send with `fetch`, and the one reply
 * field they read back.
 */
module Requests {
  import opened Wrappers
  import opened Text
  import opened Urls

  datatype Verb = Post | Patch | Delete

  /** A `fetch` call: verb, URL and, for POST and PATCH, the JSON body. */
  datatype Request<B> = Request(verb: Verb, url: string, body: Option<B>)

  /**
   * What a form reads of the response: on `res.ok`, `data.editKey` (empty
   * when absent) and, for an updated review, `data.review?.storeId`; or else
   * `data.error` (empty when absent).
   */
  datatype Reply = Ok(editKey: string, storeId: Option<string>) | Failed(error: string)

  /** What the user is left with once a form action settles. */
  datatype Outcome =
    | Stay                    // the form stays on screen
    | KeyPanel(key: string)   // the issued key replaces the form
    | GoTo(path: string)      // the router moves to another page
    | ErrorToast(message: string)

  /** `data.error || fallback`: the message a failed request shows. */
  function ErrorMessage(error: string, fallback: string): (m: string)
    ensures error != "" ==> m == error
    ensures error == "" ==> m == fallback
  {
    if error != "" then error else fallback
  }

  /**
   * A failed request always shows a message: the server's own, or the
   * form's fallback. The `catch` block's second fallback is never reached.
   */
  lemma FailureIsExplained(error: string, fallback: string)
    requires fallback != ""
    ensures ErrorMessage(error, fallback) != ""
    ensures ErrorMessage(error, fallback) in {error, fallback}
  {
  }

  /** `${id}` for an id that may be `undefined`. */
  function IdText(id: Option<string>): (s: string)
    ensures id.Some? ==> s == id.value
    ensures id.None? ==> s == "undefined"
  {
    if id.Some? then id.value else "undefined"
  }

  /** `${path}?key=${key}`: the key interpolated as typed. */
  function WithKey(path: string, key: string): string {
    Href(path, [Param("key", key)])
  }

  /** The server reads back the path and the key of a delete URL. */
  lemma KeyReadsBack(path: string, key: string)
    requires '?' !in path && '#' !in path && '&' !in key && '#' !in key
    ensures PathOf(WithKey(path, key)) == path
    ensures QueryParam(WithKey(path, key), "key") == Some(PercentDecode(key))
  {
    KeyNameIsPlain();
    HrefSingle(path, "key", key);
  }

  lemma KeyNameIsPlain()
    ensures PlainName("key")
  {
    assert "key" == ['k', 'e', 'y'];
  }

  /** A key issued as lower-case hex reaches the server unchanged. */
  lemma IssuedKeyReadsBack(path: string, random: seq<Byte>)
    requires '?' !in path && '#' !in path
    ensures PathOf(WithKey(path, HexEncode(random))) == path
    ensures QueryParam(WithKey(path, HexEncode(random)), "key") == Some(HexEncode(random))
  {
    var key := HexEncode(random);
    assert forall c :: c in key ==> IsLowerHex(c);
    KeyReadsBack(path, key);
    DecodePlain(key);
  }
}
