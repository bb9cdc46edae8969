/**
 * What a handler hands back to the web framework: either a plain JSON document
 * (a Python dict the framework serialises with status 200) or an explicit
 * response with a status code, headers and a body. Alongside, the reading a
 * client makes of the JSON documents the registry produces.
 */
module Http {
  import opened Results

  /** The JSON values the registry produces: strings, lists and objects (keys in insertion order). */
  datatype Json = JString(text: string) | JArray(items: seq<Json>) | JObject(fields: seq<(string, Json)>)

  datatype Body = NoBody | JsonBody(json: Json) | TextBody(text: string)

  datatype Response = Response(status: int, headers: map<string, string>, body: Body)

  // HTTPStatus members used by the handlers, and the status of ChaliceViewError.
  const OK: int := 200
  const NO_CONTENT: int := 204
  const FOUND: int := 302
  const NOT_FOUND: int := 404
  const VIEW_ERROR: int := 500

  /** A list of strings as a JSON array. */
  function JStrings(ss: seq<string>): (items: seq<Json>)
    ensures |items| == |ss|
    ensures forall i :: 0 <= i < |ss| ==> items[i] == JString(ss[i])
  {
    if ss == [] then [] else [JString(ss[0])] + JStrings(ss[1..])
  }

  /** A client reading a JSON array of strings. */
  function Texts(items: seq<Json>): Option<seq<string>> {
    if items == [] then Some([])
    else if !items[0].JString? then None
    else
      match Texts(items[1..])
      case None => None
      case Some(rest) => Some([items[0].text] + rest)
  }

  lemma {:induction false} TextsStrings(ss: seq<string>)
    ensures Texts(JStrings(ss)) == Some(ss)
  {
    if ss != [] {
      var js := JStrings(ss);
      assert js == [JString(ss[0])] + JStrings(ss[1..]);
      assert js[1..] == JStrings(ss[1..]);
      TextsStrings(ss[1..]);
      assert [ss[0]] + ss[1..] == ss;
    }
  }

  /** `{"errors": [messages...]}`, the registry's error document. */
  function Errors(messages: seq<string>): Json {
    JObject([("errors", JArray(JStrings(messages)))])
  }

  /** A client reading an error document: the messages, when the document is one. */
  function ErrorMessages(j: Json): Option<seq<string>> {
    if j.JObject? && |j.fields| == 1 && j.fields[0].0 == "errors" && j.fields[0].1.JArray?
    then Texts(j.fields[0].1.items)
    else None
  }

  /** An error document is read back as the messages it was built from. */
  lemma ErrorMessagesOfErrors(messages: seq<string>)
    ensures ErrorMessages(Errors(messages)) == Some(messages)
  {
    TextsStrings(messages);
  }
}
