/** The style prompt: one fixed template with a single
    `{body_instruction}` field, filled with the instruction for the body
    extent. The prompt texts here are short stand-ins; what the model keeps
    of the real ones is their structure (one field, no other braces) and
    which keys share a text. */
module Prompts {
  import opened Results

  const Placeholder := "{body_instruction}"

  const TemplateHead := "Vector avatar. "
  const TemplateTail := " Head to chest."
  const Template := TemplateHead + Placeholder + TemplateTail

  const CropToChest := "The photo shows the full body: crop to head and upper chest."
  /** One text for both "head_only" and "head_neck". */
  const GenerateChest := "The photo stops at the neck: generate shoulders and upper chest."
  const KeepChest := "The photo shows head to upper chest: keep that composition."

  /** `BODY_INSTRUCTIONS`. */
  const Instructions: map<string, string> :=
    map["full_body" := CropToChest, "head_only" := GenerateChest,
        "head_neck" := GenerateChest, "head_chest" := KeepChest]

  /** `d.get(key, d[fallback])`. */
  function Lookup(key: string, fallback: string): (v: string)
    requires fallback in Instructions
    ensures key in Instructions ==> v == Instructions[key]
    ensures key !in Instructions ==> v == Instructions[fallback]
  {
    if key in Instructions then Instructions[key] else Instructions[fallback]
  }

  datatype FormatError = FormatError

  predicate BraceFree(s: string) {
    forall i :: 0 <= i < |s| ==> s[i] != '{' && s[i] != '}'
  }

  /** The formatted rest of a string, with `s` in front of it. */
  function Prepend(s: string, r: Result<string, FormatError>): Result<string, FormatError> {
    match r
    case Ok(x) => Ok(s + x)
    case Err(e) => Err(e)
  }

  /** `str.format(body_instruction=value)`: each `{body_instruction}` field
      is replaced by the value, `{{` and `}}` stand for one brace, and any
      other brace is an error. */
  function Format(t: string, value: string): (r: Result<string, FormatError>)
    decreases |t|
  {
    if t == [] then Ok([])
    else if t[0] == '{' then
      if |t| >= |Placeholder| && t[..|Placeholder|] == Placeholder then
        Prepend(value, Format(t[|Placeholder|..], value))
      else if |t| >= 2 && t[1] == '{' then Prepend("{", Format(t[2..], value))
      else Err(FormatError)
    else if t[0] == '}' then
      if |t| >= 2 && t[1] == '}' then Prepend("}", Format(t[2..], value))
      else Err(FormatError)
    else Prepend([t[0]], Format(t[1..], value))
  }

  /** Text without braces passes through formatting unchanged, in front of
      whatever follows it. */
  lemma {:induction false} FormatBraceFreePrefix(s: string, rest: string, value: string)
    requires BraceFree(s)
    ensures Format(s + rest, value) == Prepend(s, Format(rest, value))
  {
    if s == [] {
      assert s + rest == rest;
      assert Prepend(s, Format(rest, value)) == Format(rest, value) by {
        if Format(rest, value).Ok? {
          assert s + Format(rest, value).value == Format(rest, value).value;
        }
      }
    } else {
      var t := s + rest;
      assert t[0] == s[0] && t[1..] == s[1..] + rest;
      FormatBraceFreePrefix(s[1..], rest, value);
      if Format(rest, value).Ok? {
        assert [s[0]] + (s[1..] + Format(rest, value).value) == s + Format(rest, value).value;
      }
    }
  }

  /** A template made of brace-free text around one field formats to that
      text with the value in the field's place. */
  lemma FormatOneField(head: string, tail: string, value: string)
    requires BraceFree(head) && BraceFree(tail)
    ensures Format(head + Placeholder + tail, value) == Ok(head + value + tail)
  {
    FormatBraceFreePrefix(tail, [], value);
    assert tail + [] == tail;
    assert Format(tail, value) == Ok(tail);
    var t := Placeholder + tail;
    assert t[0] == '{';
    assert t[..|Placeholder|] == Placeholder && t[|Placeholder|..] == tail;
    assert Format(t, value) == Ok(value + tail);
    assert head + Placeholder + tail == head + t;
    FormatBraceFreePrefix(head, t, value);
    assert head + (value + tail) == head + value + tail;
  }

  /** `get_style_prompt(body_extent)`: the template with the extent's
      instruction, or the full-body instruction for an unknown extent. */
  function GetStylePrompt(extent: string): (prompt: string)
    ensures prompt == TemplateHead + Lookup(extent, "full_body") + TemplateTail
  {
    var instruction := Lookup(extent, "full_body");
    TemplateFormats(instruction);
    Format(Template, instruction).value
  }

  /** The template has exactly one field and no other brace. */
  lemma TemplateFormats(value: string)
    ensures Format(Template, value) == Ok(TemplateHead + value + TemplateTail)
  {
    assert BraceFree(TemplateHead);
    assert BraceFree(TemplateTail);
    FormatOneField(TemplateHead, TemplateTail, value);
  }

  /** Any extent the table does not know gives the full-body prompt. */
  lemma UnknownExtentIsFullBody(extent: string)
    requires extent !in Instructions
    ensures GetStylePrompt(extent) == GetStylePrompt("full_body")
  {
  }

  /** "head_only" and "head_neck" give the same prompt. */
  lemma HeadOnlyIsHeadNeck()
    ensures GetStylePrompt("head_only") == GetStylePrompt("head_neck")
  {
  }

  /** Different instructions give different prompts: the prompt determines
      the instruction that went into it. */
  lemma PromptDeterminesInstruction(a: string, b: string)
    requires GetStylePrompt(a) == GetStylePrompt(b)
    ensures Lookup(a, "full_body") == Lookup(b, "full_body")
  {
    var x, y := Lookup(a, "full_body"), Lookup(b, "full_body");
    assert |x| == |y|;
    assert TemplateHead + x + TemplateTail == TemplateHead + y + TemplateTail;
    forall i | 0 <= i < |x| ensures x[i] == y[i] {
      assert (TemplateHead + x + TemplateTail)[|TemplateHead| + i] == x[i];
      assert (TemplateHead + y + TemplateTail)[|TemplateHead| + i] == y[i];
    }
  }
}
