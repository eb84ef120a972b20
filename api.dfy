/** The request handlers of `backend/app.js`, without the HTTP framework: a request
    shape and the state of the dictionary file give a status, a body and the new
    state of the file. */
module Api {
  import opened Wrappers
  import opened Words
  import opened Store

  const InvalidInput := "Invalid input. The input must contain only alphabetic characters and be at least 2 characters long."
  const BothRequired := "Both 'fin' and 'eng' fields are required."
  const FinRequired := "'fin' field is required."
  const EngRequired := "'eng' field is required."
  const InvalidFin := "Invalid 'fin' field. It must contain only alphabetic characters and be at least 2 characters long."
  const InvalidEng := "Invalid 'eng' field. It must contain only alphabetic characters and be at least 2 characters long."
  const NoResults := "No results"

  /** The four routes. A body field is `None` when the JSON body does not have it. */
  datatype Request =
    | ListAll                                             // GET /
    | Search(word: string)                                // GET /:word
    | AddFromPath(word1: string, word2: string)           // POST /:word1/:word2
    | AddFromBody(fin: Option<string>, eng: Option<string>) // POST /add

  /** The JSON sent back: `{result: ...}`, whose value is absent when it is
      `undefined`, or the dictionary itself as an array. */
  datatype Body = Message(result: Option<string>) | Entries(pairs: Dictionary)

  datatype Response = Response(status: int, body: Body)

  function Reply(status: int, message: string): Response {
    Response(status, Message(Some(message)))
  }

  /** A body field is given when it is truthy: present and not the empty string. */
  predicate Present(field: Option<string>) {
    field.Some? && field.value != ""
  }

  /** The checks of `POST /add`, in their order; the first that fails names the
      message, and `None` means the body passes them all. */
  function ValidateBody(fin: Option<string>, eng: Option<string>): (failure: Option<string>)
    ensures failure == None <==>
      Present(fin) && Present(eng) && IsValidWord(fin.value) && IsValidWord(eng.value)
    ensures failure == Some(BothRequired) <==> !Present(fin) && !Present(eng)
    ensures failure == Some(FinRequired) <==> !Present(fin) && Present(eng)
    ensures failure == Some(EngRequired) <==> Present(fin) && !Present(eng)
    ensures failure == Some(InvalidFin) <==> Present(fin) && Present(eng) && !IsValidWord(fin.value)
    ensures failure == Some(InvalidEng) <==>
      Present(fin) && Present(eng) && IsValidWord(fin.value) && !IsValidWord(eng.value)
  {
    if !Present(fin) && !Present(eng) then Some(BothRequired)
    else if !Present(fin) then Some(FinRequired)
    else if !Present(eng) then Some(EngRequired)
    else if !IsValidWord(fin.value) then Some(InvalidFin)
    else if !IsValidWord(eng.value) then Some(InvalidEng)
    else None
  }

  /** No entry from index `from` on has `fin == word`. */
  predicate NoMatchFrom(d: Dictionary, word: string, from: nat) {
    forall j :: from <= j < |d| ==> d[j].fin != word
  }

  /** The translation a search answers with: the `eng` of the LAST entry whose `fin`
      is exactly `word` (case-sensitive), or "No results" when no entry has it. */
  function LastMatch(d: Dictionary, word: string): (r: Option<string>)
    ensures NoMatchFrom(d, word, 0) ==> r == Some(NoResults)
    ensures forall k :: 0 <= k < |d| && d[k].fin == word && NoMatchFrom(d, word, k + 1) ==> r == d[k].eng
    decreases |d|
  {
    if d == [] then Some(NoResults)
    else if d[|d| - 1].fin == word then d[|d| - 1].eng
    else
      var earlier := d[..|d| - 1];
      var r := LastMatch(earlier, word);
      assert forall i :: 0 <= i < |earlier| ==> earlier[i] == d[i];
      assert forall k :: 0 <= k <= |earlier| && NoMatchFrom(d, word, k) ==> NoMatchFrom(earlier, word, k);
      r
  }

  /** The search loop of `GET /:word`: start from "No results" and overwrite the
      answer at every entry whose `fin` matches, without stopping early. */
  method Lookup(d: Dictionary, word: string) returns (r: Option<string>)
    ensures r == LastMatch(d, word)
  {
    r := Some(NoResults);
    var i := 0;
    while i < |d|
      invariant 0 <= i <= |d|
      invariant r == LastMatch(d[..i], word)
    {
      assert d[..i + 1][..i] == d[..i];
      if d[i].fin == word {
        r := d[i].eng;
      }
      i := i + 1;
    }
    assert d[..|d|] == d;
  }

  /** Both add routes after validation: append, then answer with the dictionary read
      back from the file; a store error on either step is a 500 with its message. */
  function AddPair(w1: string, w2: string, content: Option<string>, fs: Faults): (Response, Option<string>) {
    var (after, outcome) := AppendTo(content, w1, w2, fs);
    if outcome.Fail? then (Reply(500, outcome.error.Message()), after)
    else
      match Read(after, fs)
      case Err(e) => (Reply(500, e.Message()), after)
      case Ok(d) => (Response(200, Entries(d)), after)
  }

  /** One request against the file: the response and the file's content afterwards.
      Validation failures are 400 and leave the file untouched, store errors are 500
      with the error's message, and the two reading routes never change the file. */
  function Handle(req: Request, content: Option<string>, fs: Faults): (r: (Response, Option<string>))
    ensures r.0.status == 200 || r.0.status == 400 || r.0.status == 500
    ensures req.ListAll? || req.Search? ==> r.1 == content
    ensures r.0.status == 400 ==> r.1 == content && r.0.body.Message?
    ensures r.0.status != 200 ==> r.0.body.Message? && r.0.body.result.Some?
    ensures (req.ListAll? || (req.Search? && IsValidWord(req.word))) && Read(content, fs).Err? ==>
      r.0 == Reply(500, Read(content, fs).error.Message())
    ensures r.0.body.Entries? ==> r.0.status == 200 && r.1.Some? && r.0.body.pairs == Parse(r.1.value)
  {
    match req
    case ListAll =>
      (match Read(content, fs)
       case Err(e) => (Reply(500, e.Message()), content)
       case Ok(d) => (Response(200, Entries(d)), content))
    case Search(word) =>
      if !IsValidWord(word) then (Reply(400, InvalidInput), content)
      else
        (match Read(content, fs)
         case Err(e) => (Reply(500, e.Message()), content)
         case Ok(d) => (Response(200, Message(LastMatch(d, word))), content))
    case AddFromPath(w1, w2) =>
      if !IsValidWord(w1) || !IsValidWord(w2) then (Reply(400, InvalidInput), content)
      else AddPair(w1, w2, content, fs)
    case AddFromBody(fin, eng) =>
      match ValidateBody(fin, eng)
      case Some(m) => (Reply(400, m), content)
      case None => AddPair(fin.value, eng.value, content, fs)
  }

  /** The handlers run against the file object: they call its `List` and `Append`
      as `app.js` calls `createDictionary` and `appendToFile`, and search with the
      `Lookup` loop; the outcome is exactly that of `Handle`. */
  method Serve(store: DictionaryFile, req: Request, fs: Faults) returns (resp: Response)
    modifies store
    ensures (resp, store.content) == Handle(req, old(store.content), fs)
  {
    match req
    case ListAll =>
      var listed := store.List(fs);
      resp := if listed.Err? then Reply(500, listed.error.Message()) else Response(200, Entries(listed.value));
    case Search(word) =>
      if !IsValidWord(word) {
        return Reply(400, InvalidInput);
      }
      var listed := store.List(fs);
      if listed.Err? {
        return Reply(500, listed.error.Message());
      }
      var translation := Lookup(listed.value, word);
      resp := Response(200, Message(translation));
    case AddFromPath(w1, w2) =>
      if !IsValidWord(w1) || !IsValidWord(w2) {
        return Reply(400, InvalidInput);
      }
      resp := ServeAdd(store, w1, w2, fs);
    case AddFromBody(fin, eng) =>
      var failure := ValidateBody(fin, eng);
      if failure.Some? {
        return Reply(400, failure.value);
      }
      resp := ServeAdd(store, fin.value, eng.value, fs);
  }

  /** Both add routes after validation, against the file object. */
  method ServeAdd(store: DictionaryFile, w1: string, w2: string, fs: Faults) returns (resp: Response)
    modifies store
    ensures (resp, store.content) == AddPair(w1, w2, old(store.content), fs)
  {
    var outcome := store.Append(w1, w2, fs);
    if outcome.Fail? {
      return Reply(500, outcome.error.Message());
    }
    var listed := store.List(fs);
    resp := if listed.Err? then Reply(500, listed.error.Message()) else Response(200, Entries(listed.value));
  }

  // ---------------------------------------------------------------------------
  // Properties of the handlers

  /** `GET /` answers with the parsed dictionary unchanged, or 500 with the store's
      message; an absent file gives "Dictionary file does not exists.". */
  lemma ListAllAnswers(content: Option<string>, fs: Faults)
    ensures var (resp, after) := Handle(ListAll, content, fs);
      && after == content
      && (content.None? ==> resp == Reply(500, "Dictionary file does not exists."))
      && (content.Some? && fs.readError.None? ==> resp == Response(200, Entries(Parse(content.value))))
  {
  }

  /** An invalid search word is a 400 whatever the file holds: the store is never
      consulted. */
  lemma SearchInvalidWord(word: string, content: Option<string>, fs: Faults)
    requires !IsValidWord(word)
    ensures Handle(Search(word), content, fs) == (Reply(400, InvalidInput), content)
  {
  }

  /** A valid search word answers with the last match in file order. */
  lemma SearchAnswersLastMatch(word: string, text: string, fs: Faults)
    requires IsValidWord(word) && fs.readError.None?
    ensures Handle(Search(word), Some(text), fs).0 == Response(200, Message(LastMatch(Parse(text), word)))
  {
  }

  /** Lookup is exact: "Koira" does not find the entry for "koira", and of two
      entries for "koira" the later one wins. */
  lemma LookupExamples()
    ensures LastMatch([Pair("koira", Some("dog"))], "Koira") == Some(NoResults)
    ensures LastMatch([Pair("koira", Some("dog")), Pair("kissa", Some("cat")), Pair("koira", Some("hound"))], "koira") == Some("hound")
    ensures LastMatch([Pair("koira", Some("dog")), Pair("koira", None)], "koira") == None
  {
  }

  /** An invalid path segment is a 400 and the file is left untouched. */
  lemma PostInvalidSegment(w1: string, w2: string, content: Option<string>, fs: Faults)
    requires !IsValidWord(w1) || !IsValidWord(w2)
    ensures Handle(AddFromPath(w1, w2), content, fs) == (Reply(400, InvalidInput), content)
  {
  }

  /** A body that fails a check is a 400 with the first failing check's message and
      the file is left untouched. */
  lemma AddBodyRejected(fin: Option<string>, eng: Option<string>, content: Option<string>, fs: Faults)
    requires ValidateBody(fin, eng).Some?
    ensures Handle(AddFromBody(fin, eng), content, fs) == (Reply(400, ValidateBody(fin, eng).value), content)
  {
  }

  /** Both add routes, once their input passes validation, do the same thing. */
  lemma AddRoutesAgree(w1: string, w2: string, content: Option<string>, fs: Faults)
    requires IsValidWord(w1) && IsValidWord(w2)
    ensures Handle(AddFromPath(w1, w2), content, fs) == AddPair(w1, w2, content, fs)
    ensures Handle(AddFromBody(Some(w1), Some(w2)), content, fs) == AddPair(w1, w2, content, fs)
  {
  }

  /** A failing append is a 500 with the store's message and an unchanged file; a
      failing re-read after a successful append is a 500 with the read's message; a
      successful one answers with the full dictionary read back from the new file,
      which holds the pair. */
  lemma AddPairOutcome(w1: string, w2: string, content: Option<string>, fs: Faults)
    requires IsValidWord(w1) && IsValidWord(w2)
    ensures var (resp, after) := AddPair(w1, w2, content, fs);
      var outcome := AppendTo(content, w1, w2, fs).1;
      && (outcome.Fail? ==> resp == Reply(500, outcome.error.Message()) && after == content)
      && (outcome.Pass? && Read(after, fs).Err? ==> resp == Reply(500, Read(after, fs).error.Message()))
      && (outcome.Pass? && fs.readError.None? ==>
            after.Some? && resp == Response(200, Entries(Parse(after.value)))
            && Pair(w1, Some(w2)) in resp.body.pairs)
  {
    AppendThenListed(content, w1, w2, fs);
  }

  /** The file holding the single line "koira dog". */
  lemma KoiraDogFile()
    ensures Parse("koira dog") == [Pair("koira", Some("dog"))]
  {
    assert "koira dog" == "koira" + " " + "dog";
    assert '\n' !in "koira dog";
    ParseSingleLine("koira dog");
    ParseLineTwoWords("koira", "dog");
  }

  /** Worked request: listing an absent file. */
  lemma ScenarioAbsentFile()
    ensures Handle(ListAll, None, NoFaults) == (Reply(500, "Dictionary file does not exists."), None)
  {
  }

  /** Worked requests against a file holding "koira dog": a known word finds its
      translation, an unknown one "No results". */
  lemma ScenarioSearch()
    ensures Handle(Search("koira"), Some("koira dog"), NoFaults).0 == Response(200, Message(Some("dog")))
    ensures Handle(Search("kissa"), Some("koira dog"), NoFaults).0 == Response(200, Message(Some(NoResults)))
  {
    var d := [Pair("koira", Some("dog"))];
    KoiraDogFile();
    assert Read(Some("koira dog"), NoFaults) == Ok(d);
    assert IsValidWord("koira") && IsValidWord("kissa");
    assert LastMatch(d, "koira") == Some("dog");
    assert LastMatch(d, "kissa") == Some(NoResults);
  }

  /** Worked request: adding "koira dog" again to a file that already holds it. */
  lemma ScenarioDuplicate()
    ensures Handle(AddFromBody(Some("koira"), Some("dog")), Some("koira dog"), NoFaults)
      == (Reply(500, "Word pair already exists in the dictionary."), Some("koira dog"))
  {
    KoiraDogFile();
    assert IsValidWord("koira") && IsValidWord("dog");
    assert ValidateBody(Some("koira"), Some("dog")) == None;
    assert HasPair([Pair("koira", Some("dog"))], "koira", "dog");
    assert AppendTo(Some("koira dog"), "koira", "dog", NoFaults) == (Some("koira dog"), Fail(DuplicatePair));
  }
}
