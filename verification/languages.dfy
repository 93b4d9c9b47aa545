/** The language-code check run before a requested code is used. */
module Languages {
  import opened Wrappers
  import opened Text

  datatype TrackKind = Audio | Subtitles

  /** The exception raised for a code that is not in the list. */
  datatype CodeError = UnknownCode(kind: TrackKind, code: string)

  /**
   * `verify_language_code`: `codeLines` are the lines of the language-code
   * list, each `code:Display Name`. Succeeds with `true` exactly when `code`
   * equals the text before the first colon of some line; raises otherwise.
   */
  function VerifyLanguageCode(code: string, kind: TrackKind, codeLines: seq<string>): (r: Result<bool, CodeError>)
    ensures r.Ok? <==> exists i :: 0 <= i < |codeLines| && CodePrefix(codeLines[i]) == code
    ensures r.Ok? ==> r.value
    ensures r.Err? ==> r.error == UnknownCode(kind, code)
  {
    var known := seq(|codeLines|, i requires 0 <= i < |codeLines| => CodePrefix(codeLines[i]));
    assert forall i :: 0 <= i < |codeLines| ==> known[i] == CodePrefix(codeLines[i]);
    if code in known then Ok(true) else Err(UnknownCode(kind, code))
  }

  /** A line whose text before the colon is the code verifies it, whatever the display name. */
  lemma {:induction false} CodeLineVerifies(code: string, name: string, codeLines: seq<string>)
    requires ':' !in code
    requires code + ":" + name in codeLines
    ensures VerifyLanguageCode(code, Audio, codeLines) == Ok(true)
    ensures VerifyLanguageCode(code, Subtitles, codeLines) == Ok(true)
  {
    var line := code + ":" + name;
    var i :| 0 <= i < |codeLines| && codeLines[i] == line;
    var p := CodePrefix(line);
    assert line[..|code|] == code && line[|code|] == ':';
    assert p == code;
  }
}
