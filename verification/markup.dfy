/** The presentation step: the serialized document placed between a JSON-LD
    script tag, ready to paste into a page. */
module Markup {
  import opened Results

  const OpenTag: string := "<script type=\"application/ld+json\">"
  const CloseTag: string := "</script>"

  /** The text before and after the body: the opening tag and a newline, a
      newline and the closing tag. */
  const Prefix: string := OpenTag + "\n"
  const Suffix: string := "\n" + CloseTag

  /** The returned f-string: opening tag, newline, body, newline, closing tag. */
  function Wrap(body: string): (r: string)
    ensures |r| == |Prefix| + |body| + |Suffix|
    ensures r[..|Prefix|] == Prefix && r[|r| - |Suffix|..] == Suffix
    ensures r[|Prefix|..|r| - |Suffix|] == body
  {
    var r := Prefix + body + Suffix;
    assert r[..|Prefix|] == Prefix;
    assert r[|r| - |Suffix|..] == Suffix;
    assert r[|Prefix|..|r| - |Suffix|] == body;
    r
  }

  /** Strips the wrapper again: the body of a wrapped block, or `None` when
      `s` does not start with the opening line and end with the closing one. */
  function Unwrap(s: string): Option<string> {
    if |s| >= |Prefix| + |Suffix| && s[..|Prefix|] == Prefix && s[|s| - |Suffix|..] == Suffix then
      Some(s[|Prefix|..|s| - |Suffix|])
    else
      None
  }

  /** Stripping the tags from a generated block yields the serialized body. */
  lemma UnwrapWrap(body: string)
    ensures Unwrap(Wrap(body)) == Some(body)
  {
  }

  /** Every block that unwraps is the wrapping of its body: the wrapper is
      the only text added around the JSON. */
  lemma WrapUnwrap(s: string)
    requires Unwrap(s).Some?
    ensures Wrap(Unwrap(s).value) == s
  {
    var body := Unwrap(s).value;
    assert s == s[..|Prefix|] + body + s[|s| - |Suffix|..];
  }
}
