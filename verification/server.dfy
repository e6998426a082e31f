/** One `/analyze` request (`handleAnalyzeRequest`): both searches run on the
    store as it was when the request arrived, then the text is added. */
module Server {
  import opened Options
  import opened WordStore
  import opened Search

  /** The only error the request path reports: the body has no `text`. */
  datatype Error = InvalidRequestBody

  /** The two matches the response carries. `None` is written into the JSON
      text as the quoted string `"null"`, indistinguishable from a stored
      word `null`. */
  datatype Response = Response(value: Option<string>, lexical: Option<string>)

  /** Handles one request. `text` is `None` when the JSON body has no `text`
      field or holds JSON `null` there; the store is then left as it was. */
  method Analyze(s: Store, text: Option<string>) returns (result: Result<Response, Error>, next: Store)
    ensures text.None? ==> result == Failure(InvalidRequestBody) && next == s
    ensures text.Some? ==> result.Success? && next == AddWord(s, text.value)
    ensures text.Some? && result.Success? ==>
      var t, resp := text.value, result.value;
      && (resp.value.None? <==> forall k :: 0 <= k < |s.words| ==> s.words[k] == t)
      && (resp.value.Some? ==> resp.value.value != t && FirstClosest(ByValue, t, Without(s.words, t), resp.value.value))
      && (resp.lexical.None? <==> |s.words| == 0)
      && (resp.lexical.Some? ==> resp.lexical.value in s.words)
      && (resp.lexical.Some? ==> FirstClosest(Lexical, t, SearchPath(s.words, t, 0, |s.words| - 1), resp.lexical.value))
      && (resp.lexical == Some(t) ==> t in s.words)
  {
    if text.None? {
      return Failure(InvalidRequestBody), s;
    }
    var t := text.value;
    var closestByValue := FindWordWithClosestCharacterValue(s.words, t);
    var closestLexical := FindClosestLexicalWord(s.words, t);
    ghost var path := SearchPath(s.words, t, 0, |s.words| - 1);
    assert closestLexical.Some? ==> FirstClosest(Lexical, t, path, closestLexical.value);
    next := AddWord(s, t);
    result := Success(Response(closestByValue, closestLexical));
  }
}
