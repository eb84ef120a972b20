# Finnish–English dictionary backend, modelled in Dafny

This project models the backend of a small bilingual dictionary web application. The backend uses one flat text file, `sanakirja.txt`, holding one word pair per line as `"<fin> <eng>"`. The file is re-read on every request. Four HTTP handlers list the file, search it for a Finnish word, or add a pair (taken from the path or from a JSON body).

- `wrappers.dfy`: `Option`, `Result`, `Outcome`.
- `text.dfy`: JavaScript's `String.prototype.split`, in the two forms the store uses. `SplitOn(s, c)` splits on a one-character string. `SplitLines(s)` splits on the regular expression `/\r?\n/` and is scanned like JavaScript does: leftmost match, and a lone carriage return is an ordinary character. `SplitOn` is proved to invert `Join`, in both directions. `SplitLines` is proved equal to a reference definition: split on each line feed, then strip one carriage return from every piece except the last.
- `words.dfy`: `isValidWord`. It is the three-state automaton of `/^[a-zA-ZåäöÅÄÖ]{2,}$/`, proved equal to "at least two characters, all from the class".
- `store.dfy`: the store. It has entries (`Pair` with `eng: Option<string>`), line parsing, the duplicate check, and `AppendTo`, the pure meaning of `appendToFile`. The class `DictionaryFile` holds the file as `content: Option<string>`; absent is `None`. Its `List` method builds the dictionary line by line, as `createDictionary` does. Its `Append` method creates the file, refuses a duplicate, or appends.
- `api.dfy`: the handlers. `Handle` is a pure function from a request shape, the file state and the OS faults to a status, a body and the new file state. `Serve` runs the same handlers against a `DictionaryFile` object. It calls `List` and `Append`, and the `Lookup` loop. It is proved to agree with `Handle`.

Operating-system behaviour is a parameter `Faults(readError, writeError)`. It gives the error, if any, that every file read or write in a request fails with. The errors reach the client as `IOError(message)`. A failing write leaves the file content as it was.

The validity pattern is `/^[a-zA-ZåäöÅÄÖ]{2,}$/` (backend/utils.js:7); it has no space, so `"a b"` is rejected.

## Model

| member | source | states |
|---|---|---|
| Words.Accepts | backend/utils.js:7 | the anchored automaton of the pattern accepts from a state that has seen `seen` letters exactly when at least two letters are read in all and every remaining character is in `[a-zA-ZåäöÅÄÖ]` |
| Words.IsValidWord | backend/utils.js:7 | a word is valid exactly when it is at least 2 characters long and every character is an ASCII letter or one of å ä ö Å Ä Ö |
| Words.ValidWordSeparatorFree | backend/utils.js:7 | a valid word is non-empty and has no space, line feed or carriage return, so it cannot break the line format |
| Words.ValidWordExamples | backend/utils.js:7 | "ab", "äö" and "koira" are accepted; "", "a", "ab3" and "a b" are rejected |
| Text.SplitOn | backend/utils.js:38 | `line.split(" ")` always yields at least one piece, so `words[0]` always exists |
| Text.SplitOnConcat | backend/utils.js:38 | splitting at one separator and then splitting both sides gives the pieces of the whole |
| Text.SplitOnCount | backend/utils.js:38 | there is exactly one more piece than separators |
| Text.SplitOnPieces | backend/utils.js:38 | no piece contains the separator |
| Text.JoinSplitOn | backend/utils.js:38 | joining the pieces with the separator gives back the string (nothing is lost) |
| Text.SplitOnJoin | backend/utils.js:38 | splitting a join of separator-free pieces gives back exactly those pieces |
| Text.SplitLines | backend/utils.js:34 | `data.split(/\r?\n/)` yields at least one line, even for empty text |
| Text.SplitLinesReference | backend/utils.js:34 | the regex split equals: split on each line feed, then drop one trailing carriage return from every line except the last |
| Text.SplitLinesCount | backend/utils.js:34 | there is one line per line feed plus one; blank lines are kept |
| Text.SplitLinesPieces | backend/utils.js:34 | no line contains a line feed |
| Text.SplitLinesSingle | backend/utils.js:34 | text without a line feed is one line, carriage returns included |
| Text.SplitLinesAppend | backend/utils.js:34 | appending a line feed and a line-feed-free `t` makes `t` the last line, and keeps every earlier line unless the text ended in a carriage return |
| Store.ParseLine | backend/utils.js:38-43 | `fin` never holds a space; `eng` is undefined exactly when the line has no space, and otherwise holds no space; the exact pieces are stated by `ParseLineNoSpace`, `ParseLineTwoWords` and `ParseLineDropsRest` |
| Store.Parse | backend/utils.js:31-46 | the dictionary built from the whole text, one `ParseLine` entry per line of the `/\r?\n/` split; its count, order and the carriage-return handling are stated by `ParseSegments`, `ParseSingleLine` and `AppendRoundTrip` |
| Store.Read | backend/utils.js:11-52 | the pure meaning of `createDictionary`: `NotFound` for an absent file before any read, then the read error, else `Parse` of the text; `DictionaryFile.List` is proved to return exactly these cases |
| Store.AppendTo | backend/utils.js:55-97 | the pure meaning of `appendToFile`: a failure leaves the content unchanged; a success leaves a file, which strictly extends an existing text; the outcome is `DuplicatePair` exactly when the file exists, reads, and already lists the exact pair; the create, append and round-trip behaviour is stated by the `Append…` lemmas |
| Store.HasPair | backend/utils.js:75-77 | the duplicate check holds exactly when an entry with `fin == w1` and `eng == Some(w2)` is in the dictionary (exact, case-sensitive; an entry without `eng` never matches) |
| Store.ParseLineNoSpace | backend/utils.js:38-43 | a line without a space is all `fin`, with `eng` undefined; a blank line gives `fin == ""` |
| Store.ParseLineTwoWords | backend/utils.js:38-43 | `fin` is the text before the first space and `eng` the text after it |
| Store.ParseLineDropsRest | backend/utils.js:38-43 | with more spaces, `eng` is the text between the first two spaces and the rest is dropped |
| Store.ParseSegments | backend/utils.js:31-46 | the parsed dictionary has one entry per line-feed-separated piece, in file order, each parsed from that piece less a trailing carriage return (not for the last); nothing is trimmed, merged or skipped |
| Store.ParseSingleLine | backend/utils.js:34-46 | text without line feeds parses to the single entry of that line |
| Store.AppendCreatesFile | backend/utils.js:57-59 | appending to an absent file creates exactly `w1 + " " + w2 + "\n"`, which parses to `[{w1, w2}, {"", undefined}]` |
| Store.AppendRejectsDuplicate | backend/utils.js:68-84 | when the exact pair is already listed, the append fails with "Word pair already exists in the dictionary." and the file is unchanged |
| Store.AppendFailureKeepsContent | backend/utils.js:60-63 | a failed append — a write error, a read error or a duplicate — never changes the file |
| Store.AppendExtends | backend/utils.js:87 | otherwise the new content is exactly the old text followed by `"\n" + w1 + " " + w2` |
| Store.AppendRoundTrip | backend/utils.js:34-46 | for valid words and an old text not ending in a carriage return, parsing after the append gives the old entries followed by `{w1, w2}` |
| Store.AppendThenListed | backend/utils.js:55-97 | after any successful append the pair is in the dictionary read back; on an existing file it is the last entry |
| Store.AppendTwiceRejects | backend/utils.js:75-84 | appending the same valid pair a second time is refused as a duplicate and leaves the file as the first append made it |
| Store.DictionaryFile.constructor | backend/utils.js:4 | the file object starts absent or with the given text |
| Store.DictionaryFile.List | backend/utils.js:11-52 | an absent file fails with "Dictionary file does not exists." before any read; a read error is returned as is; otherwise the result is the parse of the whole text, built entry by entry |
| Store.DictionaryFile.Append | backend/utils.js:55-97 | the new content and the outcome are those of `AppendTo`: create, refuse a duplicate, or append; a failure leaves the content unchanged |
| Api.Present | backend/app.js:112-117 | JavaScript truthiness of a body field that is absent or a string: present and non-empty; its use is stated by `ValidateBody`'s contract |
| Api.ValidateBody | backend/app.js:112-122 | the `/add` checks in order, first failure wins: both fields missing, `fin` missing, `eng` missing, `fin` invalid, `eng` invalid; an empty string counts as missing; each message is returned exactly when its check is the first to fail |
| Api.LastMatch | backend/app.js:64-73 | "No results" when no entry has `fin == word`; otherwise the `eng` of the last entry that has it (exact, case-sensitive) |
| Api.Lookup | backend/app.js:64-73 | the overwrite-on-match loop, which never stops early, returns exactly the last match or "No results" |
| Api.Handle | backend/app.js:37-140 | every response is 200, 400 or 500; the two GET routes never change the file; a 400 leaves the file unchanged; every non-200 carries a message; a dictionary body is the parse of the file as it is afterwards; on `GET /` and on `GET /:word` with a valid word a store error is a 500 with exactly that error's message |
| Api.AddPair | backend/app.js:90-104 | both add routes after validation: append, then re-read; the 500 and 200 cases are stated by `AddPairOutcome`, and `AddRoutesAgree` shows both routes use it |
| Api.Serve | backend/app.js:37-140 | the handlers run against the file object give the same response and new file content as `Handle` |
| Api.ServeAdd | backend/app.js:90-104 | append through the object, then re-read; the response and content are those of the pure add path |
| Api.ListAllAnswers | backend/app.js:37-46 | `GET /` returns the parsed dictionary unchanged, or 500 "Dictionary file does not exists." for an absent file, and never changes the file |
| Api.SearchInvalidWord | backend/app.js:53-55 | an invalid search word is a 400 with the fixed invalid-input message, whatever the file holds |
| Api.SearchAnswersLastMatch | backend/app.js:58-75 | a valid search word on a readable file answers 200 with the last match |
| Api.LookupExamples | backend/app.js:70 | "Koira" does not match "koira"; of two entries for a word the later wins; a match without `eng` answers with no result value |
| Api.PostInvalidSegment | backend/app.js:85-87 | an invalid path segment is a 400 and the file is left untouched |
| Api.AddBodyRejected | backend/app.js:112-122 | a body that fails a check is a 400 with the first failing check's message and the file is left untouched |
| Api.AddRoutesAgree | backend/app.js:90-104 | once validation passes, `POST /:word1/:word2` and `POST /add` do the same thing |
| Api.AddPairOutcome | backend/app.js:125-139 | a failing append is a 500 with the store's message and an unchanged file; a failing re-read after a successful append is a 500 with the read's message; a successful one is a 200 with the full dictionary re-read from the new file, which holds the pair |
| Api.KoiraDogFile | backend/utils.js:34-46 | the file "koira dog" parses to the single entry `{koira, dog}` |
| Api.ScenarioAbsentFile | backend/app.js:38-42 | listing an absent file gives 500 "Dictionary file does not exists." |
| Api.ScenarioSearch | backend/app.js:58-75 | on "koira dog", searching "koira" gives "dog" and searching "kissa" gives "No results" |
| Api.ScenarioDuplicate | backend/app.js:125-129 | adding koira/dog again to "koira dog" gives 500 "Word pair already exists in the dictionary." and leaves the file unchanged |

## Left out

- The React frontend (`sanakirja/src/`): UI component state, fetching, retry timers and routing.
- Express plumbing: body parsing, the CORS and content-type headers, route matching and URL decoding of path segments, and `app.listen`. The model starts from an already-matched request shape (`Request`).
- JSON encoding. `Body.Message(None)` stands for `{result: undefined}`, which the client receives as `{}`. An entry with `eng == None` is sent without an `eng` key.
- Real file-system calls, their asynchrony and the `console.error` logging. The file is an in-memory `Option<string>`. OS errors are the `Faults` parameter, one read error and one write error per request. A partial write, or a write that fails halfway, is not modelled. Because every read in one request fails alike, an append to an existing file that succeeded has already read the file, so the re-read after it cannot fail in the model: the 500 paths at `backend/app.js:98-100` and `backend/app.js:133-135` are reachable only after the file was just created (a read error that appears between the two reads is not modelled).
- The `appendFile` error path calls its callback twice: first with the error, then with `null` (`backend/utils.js:88-93`). The model delivers the error once. The second, success-looking call is not modelled: after the 500 has been sent it goes on to `createDictionary` and then `res.json`. By a reading of Express (not part of this model, and not executed) that second `res.json` most likely throws a "headers already sent" error inside a file-system callback, where nothing catches it, so it would probably crash the process.
- Concurrent requests. The read–check–append sequence in `appendToFile` is not atomic. The model is sequential, one request at a time.
- JavaScript coercion of non-string JSON body values (numbers, booleans, `null`) before the truthiness and regex tests. Body fields are absent or strings.
- Text encoding. Strings are sequences of Unicode characters. The file's UTF-8 decoding and JavaScript's UTF-16 code units are not modelled. This does not change which words are valid, since a character outside the class rejects either way.
