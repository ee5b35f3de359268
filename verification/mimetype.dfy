/**
 * `get_mimetype(filetype, dstr)`: the media type of a reconstructed
 * document, decided by a fixed priority order — a README file type first,
 * then JSON, then YAML, then plain text. The JSON and YAML parsers
 * (`json.loads`, `yaml.safe_load`) are foreign code and enter as the
 * predicates `parsesAsJson` and `parsesAsYaml`, true when the parser
 * returns without raising.
 */
module MimeType {

  const Markdown := "text/markdown"
  const Json := "application/json"
  const Yaml := "text/yaml"
  const Plain := "text/plain"

  function LowerChar(c: char): char {
    if 'A' <= c <= 'Z' then (c as int - 'A' as int + 'a' as int) as char else c
  }

  /** Lower-casing of the ASCII letters, which decides `filetype.lower() == 'readme'`. */
  function Lower(s: string): (r: string)
    ensures |r| == |s|
    ensures forall i :: 0 <= i < |s| ==> r[i] == LowerChar(s[i])
    decreases |s|
  {
    if s == [] then [] else [LowerChar(s[0])] + Lower(s[1..])
  }

  predicate IsReadme(filetype: string) {
    Lower(filetype) == "readme"
  }

  function GetMimetype(filetype: string, text: string,
                       parsesAsJson: string -> bool, parsesAsYaml: string -> bool): (m: string)
    ensures m in {Markdown, Json, Yaml, Plain}
    ensures m == Markdown <==> IsReadme(filetype)
    ensures m == Json <==> !IsReadme(filetype) && parsesAsJson(text)
    ensures m == Yaml <==> !IsReadme(filetype) && !parsesAsJson(text) && parsesAsYaml(text)
    ensures m == Plain <==> !IsReadme(filetype) && !parsesAsJson(text) && !parsesAsYaml(text)
  {
    if IsReadme(filetype) then Markdown
    else if parsesAsJson(text) then Json
    else if parsesAsYaml(text) then Yaml
    else Plain
  }

  /** The README test ignores letter case: every spelling of "readme" is served as Markdown. */
  lemma {:induction false} ReadmeAnyCase(filetype: string)
    requires |filetype| == 6
    requires forall i :: 0 <= i < 6 ==> LowerChar(filetype[i]) == "readme"[i]
    ensures IsReadme(filetype)
  {
    assert Lower(filetype) == "readme";
  }

  /** A README is Markdown whatever its content and whatever the parsers say of it. */
  lemma ReadmeIgnoresContent(filetype: string, text1: string, text2: string,
                             json1: string -> bool, yaml1: string -> bool,
                             json2: string -> bool, yaml2: string -> bool)
    requires IsReadme(filetype)
    ensures GetMimetype(filetype, text1, json1, yaml1) == GetMimetype(filetype, text2, json2, yaml2) == Markdown
  {
  }

  /**
   * Every JSON document is also YAML; testing JSON first serves it as JSON.
   * Only a text neither parser accepts falls through to plain text.
   */
  lemma JsonBeforeYaml(filetype: string, text: string, parsesAsJson: string -> bool, parsesAsYaml: string -> bool)
    requires !IsReadme(filetype) && parsesAsJson(text) && parsesAsYaml(text)
    ensures GetMimetype(filetype, text, parsesAsJson, parsesAsYaml) == Json
  {
  }
}
