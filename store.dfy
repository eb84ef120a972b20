/** The file-backed word-pair store of `backend/utils.js`: the dictionary file is a
    text of lines `"<fin> <eng>"`, read in full on every request. */
module Store {
  import opened Wrappers
  import opened Text
  import opened Words

  /** One entry: `fin` is always present; `eng` is absent when the line has no space. */
  datatype Pair = Pair(fin: string, eng: Option<string>)

  /** Entries in file-line order. */
  type Dictionary = seq<Pair>

  /** What a store operation can fail with; `Message` is the `err.message` the
      handlers send back. */
  datatype StoreError = NotFound | DuplicatePair | IOError(reason: string) {
    function Message(): string {
      match this
      case NotFound => "Dictionary file does not exists."
      case DuplicatePair => "Word pair already exists in the dictionary."
      case IOError(reason) => reason
    }
  }

  /** What the operating system answers within one request: the error every file
      read fails with, and the error every file write fails with, if any. */
  datatype Faults = Faults(readError: Option<string>, writeError: Option<string>)

  const NoFaults := Faults(None, None)

  /** One line as an entry: `line.split(" ")`, whose first piece is `fin` and whose
      second piece, if any, is `eng`; further pieces are dropped. */
  function ParseLine(line: string): (p: Pair)
    ensures ' ' !in p.fin
    ensures p.eng.None? <==> ' ' !in line
    ensures p.eng.Some? ==> ' ' !in p.eng.value
  {
    var words := SplitOn(line, ' ');
    SplitOnPieces(line, ' ');
    SplitOnCount(line, ' ');
    assert ' ' in line <==> ' ' in multiset(line);
    Pair(words[0], if |words| >= 2 then Some(words[1]) else None)
  }

  /** The whole file as a dictionary: one entry per line of `text.split(/\r?\n/)`. */
  function Parse(text: string): Dictionary {
    var lines := SplitLines(text);
    seq(|lines|, i requires 0 <= i < |lines| => ParseLine(lines[i]))
  }

  /** `dictionary.some(word => word.fin === w1 && word.eng === w2)`. */
  function HasPair(d: Dictionary, w1: string, w2: string): (found: bool)
    ensures found <==> Pair(w1, Some(w2)) in d
    decreases |d|
  {
    if d == [] then false
    else
      var rest := HasPair(d[1..], w1, w2);
      assert d == [d[0]] + d[1..];
      (d[0].fin == w1 && d[0].eng == Some(w2)) || rest
  }

  /** `createDictionary`: an absent file is an error before anything is read; then the
      read itself may fail; otherwise the content is parsed. */
  function Read(content: Option<string>, fs: Faults): Result<Dictionary, StoreError> {
    if content.None? then Err(NotFound)
    else if fs.readError.Some? then Err(IOError(fs.readError.value))
    else Ok(Parse(content.value))
  }

  /** `appendToFile(w1, w2)` on the file state: the new content and the outcome. An
      absent file is created holding `"w1 w2\n"`; an existing one is read, an exact
      duplicate is refused, and otherwise `"\nw1 w2"` is added at its end. A failing
      read or write leaves the content as it was. */
  function AppendTo(content: Option<string>, w1: string, w2: string, fs: Faults): (r: (Option<string>, Outcome<StoreError>))
    ensures r.1.Fail? ==> r.0 == content
    ensures r.1.Pass? ==> r.0.Some? && (content.Some? ==> content.value < r.0.value)
    ensures r.1 == Fail(DuplicatePair) <==>
      content.Some? && fs.readError.None? && Pair(w1, Some(w2)) in Parse(content.value)
  {
    match content
    case None =>
      if fs.writeError.Some? then (None, Fail(IOError(fs.writeError.value)))
      else (Some(w1 + " " + w2 + "\n"), Pass)
    case Some(text) =>
      match Read(content, fs)
      case Err(e) => (content, Fail(e))
      case Ok(d) =>
        if HasPair(d, w1, w2) then (content, Fail(DuplicatePair))
        else if fs.writeError.Some? then (content, Fail(IOError(fs.writeError.value)))
        else (Some(text + "\n" + w1 + " " + w2), Pass)
  }

  // ---------------------------------------------------------------------------
  // Lines and entries

  /** A line without a space is all `fin`, with no `eng`; a blank line gives `fin == ""`. */
  lemma ParseLineNoSpace(a: string)
    requires ' ' !in a
    ensures ParseLine(a) == Pair(a, None)
  {
    SplitOnNoSep(a, ' ');
  }

  /** `fin` is the text before the first space and `eng` the text after it. */
  lemma ParseLineTwoWords(a: string, b: string)
    requires ' ' !in a && ' ' !in b
    ensures ParseLine(a + " " + b) == Pair(a, Some(b))
  {
    assert a + " " + b == a + [' '] + b;
    SplitOnConcat(a, b, ' ');
    SplitOnNoSep(a, ' ');
    SplitOnNoSep(b, ' ');
  }

  /** With more than one space, `eng` is the text between the first two spaces and
      everything from the second space on is dropped. */
  lemma ParseLineDropsRest(a: string, b: string, rest: string)
    requires ' ' !in a && ' ' !in b
    ensures ParseLine(a + " " + b + " " + rest) == Pair(a, Some(b))
  {
    assert a + " " + b + " " + rest == a + [' '] + (b + [' '] + rest);
    SplitOnConcat(a, b + [' '] + rest, ' ');
    SplitOnConcat(b, rest, ' ');
    SplitOnNoSep(a, ' ');
    SplitOnNoSep(b, ' ');
  }

  /** One entry per line in file order, nothing trimmed, merged or skipped: the entry
      at `i` comes from the `i`-th piece between line feeds, less a trailing carriage
      return unless it is the last piece. */
  lemma ParseSegments(text: string)
    ensures var d, p := Parse(text), SplitOn(text, '\n');
      && |d| == |p| == 1 + multiset(text)['\n']
      && (forall i :: 0 <= i < |p| - 1 ==> d[i] == ParseLine(StripCR(p[i])))
      && d[|d| - 1] == ParseLine(p[|p| - 1])
  {
    SplitLinesReference(text);
    SplitOnCount(text, '\n');
  }

  /** Text without line feeds is a single entry. */
  lemma ParseSingleLine(t: string)
    requires '\n' !in t
    ensures Parse(t) == [ParseLine(t)]
  {
    SplitLinesSingle(t);
  }

  // ---------------------------------------------------------------------------
  // Appending

  /** The first append creates the file as `"w1 w2\n"`, which reads back as the pair
      followed by an empty entry for the blank last line. */
  lemma AppendCreatesFile(w1: string, w2: string, fs: Faults)
    requires IsValidWord(w1) && IsValidWord(w2) && fs.writeError.None?
    ensures AppendTo(None, w1, w2, fs) == (Some(w1 + " " + w2 + "\n"), Pass)
    ensures Parse(w1 + " " + w2 + "\n") == [Pair(w1, Some(w2)), Pair("", None)]
  {
    var line := w1 + " " + w2;
    ValidWordSeparatorFree(w1);
    ValidWordSeparatorFree(w2);
    assert '\n' !in line;
    assert line + "\n" == line + "\n" + "";
    SplitLinesAppend(line, "");
    SplitLinesSingle(line);
    ParseLineTwoWords(w1, w2);
    ParseLineNoSpace("");
  }

  /** An exact, case-sensitive duplicate is refused and the file is left alone. */
  lemma AppendRejectsDuplicate(text: string, w1: string, w2: string, fs: Faults)
    requires fs.readError.None? && Pair(w1, Some(w2)) in Parse(text)
    ensures AppendTo(Some(text), w1, w2, fs) == (Some(text), Fail(DuplicatePair))
  {
  }

  /** A failed append never changes the file. */
  lemma AppendFailureKeepsContent(content: Option<string>, w1: string, w2: string, fs: Faults)
    ensures var (after, outcome) := AppendTo(content, w1, w2, fs);
      outcome.Fail? ==> after == content
  {
  }

  /** A new pair is added as `"\n" + w1 + " " + w2` after the old text, which stays
      as it was. */
  lemma AppendExtends(text: string, w1: string, w2: string)
    requires Pair(w1, Some(w2)) !in Parse(text)
    ensures AppendTo(Some(text), w1, w2, NoFaults) == (Some(text + "\n" + w1 + " " + w2), Pass)
  {
  }

  /** Round trip: after a successful append the file reads back as the old entries
      followed by the new pair, provided the old text does not end in a carriage
      return. */
  lemma AppendRoundTrip(text: string, w1: string, w2: string)
    requires IsValidWord(w1) && IsValidWord(w2) && !EndsWithCR(text)
    requires Pair(w1, Some(w2)) !in Parse(text)
    ensures AppendTo(Some(text), w1, w2, NoFaults).0 == Some(text + "\n" + w1 + " " + w2)
    ensures Parse(text + "\n" + w1 + " " + w2) == Parse(text) + [Pair(w1, Some(w2))]
  {
    var line := w1 + " " + w2;
    ValidWordSeparatorFree(w1);
    ValidWordSeparatorFree(w2);
    assert '\n' !in line;
    SplitLinesAppend(text, line);
    ParseLineTwoWords(w1, w2);
    assert text + "\n" + w1 + " " + w2 == text + "\n" + line;
  }

  /** Whenever an append succeeds, the pair is in the dictionary read back afterwards:
      on an existing file it is the last entry (whatever the old text ends with), on
      a freshly created one the first. */
  lemma AppendThenListed(content: Option<string>, w1: string, w2: string, fs: Faults)
    requires IsValidWord(w1) && IsValidWord(w2)
    ensures var (after, outcome) := AppendTo(content, w1, w2, fs);
      outcome.Pass? ==> after.Some? && Pair(w1, Some(w2)) in Parse(after.value)
    ensures var (after, outcome) := AppendTo(content, w1, w2, fs);
      outcome.Pass? && content.Some? ==>
        after.Some? && Parse(after.value)[|Parse(after.value)| - 1] == Pair(w1, Some(w2))
  {
    var (after, outcome) := AppendTo(content, w1, w2, fs);
    if outcome.Pass? {
      if content.None? {
        AppendCreatesFile(w1, w2, fs);
        assert Parse(after.value)[0] == Pair(w1, Some(w2));
      } else {
        var line := w1 + " " + w2;
        ValidWordSeparatorFree(w1);
        ValidWordSeparatorFree(w2);
        SplitLinesAppend(content.value, line);
        ParseLineTwoWords(w1, w2);
        assert after.value == content.value + "\n" + line;
        var d := Parse(after.value);
        assert d[|d| - 1] == Pair(w1, Some(w2));
      }
    }
  }

  /** Adding the same pair twice: the second append is refused as a duplicate and
      leaves the file as the first one made it. */
  lemma AppendTwiceRejects(content: Option<string>, w1: string, w2: string, fs: Faults)
    requires IsValidWord(w1) && IsValidWord(w2) && fs.readError.None?
    ensures var (after, outcome) := AppendTo(content, w1, w2, fs);
      outcome.Pass? ==> AppendTo(after, w1, w2, fs) == (after, Fail(DuplicatePair))
  {
    AppendThenListed(content, w1, w2, fs);
  }

  // ---------------------------------------------------------------------------
  // The file as an object

  /** The dictionary file `sanakirja.txt`: absent, or present with its text. */
  class DictionaryFile {
    var content: Option<string>

    constructor (initial: Option<string>)
      ensures content == initial
    {
      content := initial;
    }

    /** `createDictionary`: fails with `NotFound` when the file is absent, with the
        read error when reading fails, and otherwise returns one entry per line of the
        text, built up line by line. */
    method List(fs: Faults) returns (r: Result<Dictionary, StoreError>)
      ensures content.None? ==> r == Err(NotFound)
      ensures content.Some? && fs.readError.Some? ==> r == Err(IOError(fs.readError.value))
      ensures content.Some? && fs.readError.None? ==> r.Ok? && r.value == Parse(content.value)
    {
      if content.None? {
        return Err(NotFound);
      }
      if fs.readError.Some? {
        return Err(IOError(fs.readError.value));
      }
      var lines := SplitLines(content.value);
      var dictionary: Dictionary := [];
      var i := 0;
      while i < |lines|
        invariant 0 <= i <= |lines|
        invariant |dictionary| == i
        invariant forall k :: 0 <= k < i ==> dictionary[k] == ParseLine(lines[k])
      {
        dictionary := dictionary + [ParseLine(lines[i])];
        i := i + 1;
      }
      return Ok(dictionary);
    }

    /** `appendToFile`: creates the file, refuses a duplicate, or appends; the new
        content and the outcome are those of `AppendTo`. */
    method Append(w1: string, w2: string, fs: Faults) returns (r: Outcome<StoreError>)
      modifies this
      ensures (content, r) == AppendTo(old(content), w1, w2, fs)
      ensures r.Fail? ==> content == old(content)
    {
      if content.None? {
        if fs.writeError.Some? {
          return Fail(IOError(fs.writeError.value));
        }
        content := Some(w1 + " " + w2 + "\n");
        return Pass;
      }
      var listed := List(fs);
      if listed.Err? {
        return Fail(listed.error);
      }
      if HasPair(listed.value, w1, w2) {
        return Fail(DuplicatePair);
      }
      if fs.writeError.Some? {
        return Fail(IOError(fs.writeError.value));
      }
      content := Some(content.value + "\n" + w1 + " " + w2);
      return Pass;
    }
  }
}
