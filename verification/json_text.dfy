/**
 * Recovering the JSON object an oracle appended to its free-text answer:
 * the text from the last '{' through the last '}' is handed to a JSON
 * parser, which stays abstract here (a function returning `None` where the
 * real parser raises a decoding error).
 */
module JsonText {

  datatype Option<T> = None | Some(value: T)

  /** What the extraction returns: the parsed value, or one of two error strings. */
  datatype Extracted<J> = Value(value: J) | ErrorText(message: string)

  const InvalidJson: string := "Error: Invalid JSON format"
  const NoJsonFound: string := "Error: No valid JSON found at the end of the text"

  /** The index of the last occurrence of `c` in `s` (Python's rindex, None where it raises). */
  function LastIndexOf(s: string, c: char): (r: Option<nat>)
    ensures r.None? <==> c !in s
    ensures r.Some? ==> r.value < |s| && s[r.value] == c && forall j :: r.value < j < |s| ==> s[j] != c
    decreases |s|
  {
    if s == [] then None
    else if s[|s| - 1] == c then Some(|s| - 1)
    else
      assert s == s[..|s| - 1] + [s[|s| - 1]];
      LastIndexOf(s[..|s| - 1], c)
  }

  /** `start` and `end` are the positions of the last '{' and the last '}' of `text`. */
  predicate LastBraces(text: string, start: int, end: int) {
    && 0 <= start < |text| && 0 <= end < |text|
    && text[start] == '{' && text[end] == '}'
    && (forall j :: start < j < |text| ==> text[j] != '{')
    && (forall j :: end < j < |text| ==> text[j] != '}')
  }

  /**
   * The candidate text: Python's text[start:end + 1] from the last '{'
   * through the last '}', empty when the last '}' comes before the last '{';
   * None when either brace is missing (rindex raises ValueError).
   */
  function Candidate(text: string): (r: Option<string>)
    ensures r.None? <==> '{' !in text || '}' !in text
    ensures forall start, end :: LastBraces(text, start, end) ==>
      r == Some(if start <= end then text[start..end + 1] else [])
    ensures r.Some? && r.value != [] ==>
      r.value[0] == '{' && r.value[|r.value| - 1] == '}' &&
      (forall k :: 0 < k < |r.value| ==> r.value[k] != '{')
  {
    match (LastIndexOf(text, '{'), LastIndexOf(text, '}'))
    case (Some(start), Some(end)) =>
      assert forall s, e :: LastBraces(text, s, e) ==> s == start && e == end;
      Some(if start <= end then text[start..end + 1] else [])
    case _ => None
  }

  /**
   * extract_json_from_text, with `parse` standing for json.loads on a
   * non-empty candidate; json.loads rejects the empty text, so an empty
   * candidate is invalid JSON whatever `parse` says.
   */
  function ExtractJson<J>(text: string, parse: string -> Option<J>): (r: Extracted<J>)
    ensures r == ErrorText(NoJsonFound) <==> Candidate(text).None?
    ensures r == ErrorText(InvalidJson) <==>
      Candidate(text).Some? && (Candidate(text).value == [] || parse(Candidate(text).value).None?)
    ensures r.Value? <==>
      Candidate(text).Some? && Candidate(text).value != [] && parse(Candidate(text).value).Some?
    ensures r.Value? ==> parse(Candidate(text).value) == Some(r.value)
  {
    match Candidate(text)
    case None => ErrorText(NoJsonFound)
    case Some(t) =>
      if t == [] then ErrorText(InvalidJson)
      else
        match parse(t)
        case Some(v) => Value(v)
        case None => ErrorText(InvalidJson)
  }

  /** A closing brace before the last opening one yields the empty candidate,
      which is reported as invalid JSON. */
  lemma BracesOutOfOrder<J>(parse: string -> Option<J>)
    ensures Candidate("}{") == Some([])
    ensures ExtractJson("}{", parse) == ErrorText(InvalidJson)
  {
    assert LastBraces("}{", 1, 0);
  }

  /** An object without nested braces at the very end of any text is recovered
      exactly, whatever braces the text before it holds. */
  lemma TrailingObject(prose: string, obj: string)
    requires |obj| >= 2 && obj[0] == '{' && obj[|obj| - 1] == '}'
    requires forall k :: 0 < k < |obj| ==> obj[k] != '{'
    ensures Candidate(prose + obj) == Some(obj)
  {
    var text := prose + obj;
    assert text[|prose|] == '{' && text[|text| - 1] == '}';
    assert forall j :: |prose| < j < |text| ==> text[j] == obj[j - |prose|];
    assert LastBraces(text, |prose|, |text| - 1);
    assert text[|prose|..|text|] == obj;
  }

  /** A nested object is not recovered: the candidate starts at the inner '{'. */
  lemma NestedObjectLost()
    ensures Candidate("{\"a\":{}}") == Some("{}}")
  {
    var text := "{\"a\":{}}";
    assert |text| == 8 && text[5] == '{' && text[6] == '}' && text[7] == '}';
    assert LastBraces(text, 5, 7);
    assert text[5..8] == "{}}";
  }
}
