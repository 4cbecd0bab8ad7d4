/** `BGG_wrap`: surround rendered contents with a BGG markup code,
    `[code]contents[/code]` or `[code=value]contents[/code]`.

    The source builds this text with an f-string and then calls
    `str.format` on the result, so braces in `code` or `contents` are read
    as format syntax. `FormatAsWritten` models that; `Wrap` is the literal
    construction the docstring describes and the rest of the model uses.
    `FormatAgreesWithoutBraces` shows the two coincide when there are no
    braces, and the lemmas after it exhibit where they part. */
module Markup {
  import opened Base

  /** `[code]` or `[code=value]`. */
  function OpenTag(code: string, value: Option<string>): string {
    "[" + code + (if value.Some? then "=" + value.value else "") + "]"
  }

  /** `[/code]`. */
  function CloseTag(code: string): string {
    "[/" + code + "]"
  }

  /** The BGG construct with `contents` taken literally. */
  function Wrap(code: string, contents: string, value: Option<string>): string {
    OpenTag(code, value) + contents + CloseTag(code)
  }

  /** Reads a construct for a known code back into its contents and value.
      The value runs up to the first `]`. */
  function Unwrap(code: string, s: string): Option<(string, Option<string>)> {
    var open := "[" + code;
    var close := CloseTag(code);
    if |s| < |open| + 1 + |close| || s[..|open|] != open || s[|s| - |close|..] != close then None
    else ReadTagRest(s[|open|..|s| - |close|])
  }

  /** What follows `[code` up to `[/code]`: `]contents` or `=value]contents`. */
  function ReadTagRest(rest: string): Option<(string, Option<string>)> {
    if |rest| == 0 then None
    else if rest[0] == ']' then Some((rest[1..], None))
    else if rest[0] == '=' then
      match Find(rest, "]", 1)
      case Some(k) => Some((rest[k + 1..], Some(rest[1..k])))
      case None => None
    else None
  }

  /** A value the construct can carry unambiguously. */
  predicate ValueReadable(value: Option<string>) {
    value.Some? ==> Lacks(value.value, ']')
  }

  /** The text between `[code` and `[/code]` in a construct. */
  function TagRest(contents: string, value: Option<string>): string {
    (if value.Some? then "=" + value.value else "") + "]" + contents
  }

  lemma ReadTagRestOfTagRest(contents: string, value: Option<string>)
    requires ValueReadable(value)
    ensures ReadTagRest(TagRest(contents, value)) == Some((contents, value))
  {
    var rest := TagRest(contents, value);
    match value
    case None =>
      assert rest == "]" + contents;
      assert rest[1..] == contents;
    case Some(v) =>
      assert rest == "=" + v + "]" + contents;
      assert rest[|v| + 1..|v| + 2] == "]";
      assert At(rest, "]", |v| + 1);
      forall j | 1 <= j < |v| + 1
        ensures !At(rest, "]", j)
      {
        assert rest[j] == v[j - 1];
      }
      assert Find(rest, "]", 1) == Some(|v| + 1);
      assert rest[1..|v| + 1] == v;
      assert rest[|v| + 2..] == contents;
  }

  lemma TagRestOfReadTagRest(rest: string)
    requires ReadTagRest(rest).Some?
    ensures var (contents, value) := ReadTagRest(rest).value;
            ValueReadable(value) && TagRest(contents, value) == rest
  {
    var (contents, value) := ReadTagRest(rest).value;
    if rest[0] == ']' {
      assert rest == "]" + contents;
    } else {
      var k := Find(rest, "]", 1).value;
      assert rest[k..k + 1] == "]";
      assert rest == "=" + rest[1..k] + "]" + contents;
      forall i | 0 <= i < k - 1
        ensures rest[1..k][i] != ']'
      {
        assert !At(rest, "]", i + 1);
        assert rest[i + 1..i + 2] == [rest[i + 1]];
      }
    }
  }

  /** The contents and value can always be read back from the construct,
      whatever the contents hold. */
  lemma UnwrapWrap(code: string, contents: string, value: Option<string>)
    requires ValueReadable(value)
    ensures Unwrap(code, Wrap(code, contents, value)) == Some((contents, value))
  {
    var s := Wrap(code, contents, value);
    var open := "[" + code;
    var close := CloseTag(code);
    var rest := TagRest(contents, value);
    assert s == open + rest + close;
    assert s[..|open|] == open;
    assert s[|s| - |close|..] == close;
    assert s[|open|..|s| - |close|] == rest;
    ReadTagRestOfTagRest(contents, value);
  }

  /** Conversely, whatever reads back was produced by `Wrap`. */
  lemma WrapUnwrap(code: string, s: string)
    requires Unwrap(code, s).Some?
    ensures var (contents, value) := Unwrap(code, s).value;
            ValueReadable(value) && Wrap(code, contents, value) == s
  {
    var rest := UnwrapParts(code, s);
    TagRestOfReadTagRest(rest);
    var (contents, value) := Unwrap(code, s).value;
    WrapParts(code, contents, value);
  }

  /** A text that reads back is `[code`, a tag rest that reads back the
      same, and `[/code]`; returns that rest. */
  lemma UnwrapParts(code: string, s: string) returns (rest: string)
    requires Unwrap(code, s).Some?
    ensures s == ("[" + code) + rest + CloseTag(code)
    ensures ReadTagRest(rest) == Unwrap(code, s)
  {
    var open := "[" + code;
    var close := CloseTag(code);
    rest := s[|open|..|s| - |close|];
    assert s == s[..|open|] + rest + s[|s| - |close|..];
  }

  lemma WrapParts(code: string, contents: string, value: Option<string>)
    ensures Wrap(code, contents, value) == ("[" + code) + TagRest(contents, value) + CloseTag(code)
  {
  }

  // ---------------------------------------------------------------------
  // The construction as written: `f"[{code}{{}}]{contents}[/{code}]"`
  // followed by `.format(arg)` with `arg` the empty string or `=value`.

  /** The outcome of `str.format`: the formatted text, or an exception
      (`ValueError` for a lone brace, `IndexError` for a second `{}`). */
  datatype Formatted = Formatted(text: string) | Raised

  /** Templates whose replacement fields are all the automatic `{}`: every
      `{` that does not escape another `{` is followed by `}` or ends the
      template. Named, numbered and formatted fields are outside this. */
  predicate AutoFieldsOnly(t: string)
    decreases |t|
  {
    if |t| == 0 then true
    else if t[0] == '{' then |t| == 1 || ((t[1] == '{' || t[1] == '}') && AutoFieldsOnly(t[2..]))
    else AutoFieldsOnly(t[1..])
  }

  function Prepend(p: string, f: Formatted): Formatted {
    match f
    case Formatted(text) => Formatted(p + text)
    case Raised => Raised
  }

  /** `t.format(arg)` for one positional argument; `used` records whether
      the automatic field counter has already consumed it. */
  function Format(t: string, arg: string, used: bool): Formatted
    requires AutoFieldsOnly(t)
    decreases |t|
  {
    if |t| == 0 then Formatted("")
    else if t[0] == '{' then
      if |t| == 1 then Raised
      else if t[1] == '{' then Prepend("{", Format(t[2..], arg, used))
      else if used then Raised
      else Prepend(arg, Format(t[2..], arg, true))
    else if t[0] == '}' then
      if |t| >= 2 && t[1] == '}' then
        assert AutoFieldsOnly(t[1..]);
        Prepend("}", Format(t[2..], arg, used))
      else Raised
    else Prepend([t[0]], Format(t[1..], arg, used))
  }

  /** The f-string stage of `BGG_wrap`: `{{}}` has become `{}`. */
  function Template(code: string, contents: string): string {
    "[" + code + "{}]" + contents + "[/" + code + "]"
  }

  /** `BGG_wrap(code, contents, code_value)` exactly as written. */
  function FormatAsWritten(code: string, contents: string, value: Option<string>): Formatted
    requires AutoFieldsOnly(Template(code, contents))
  {
    Format(Template(code, contents), if value.Some? then "=" + value.value else "", false)
  }

  predicate NoBraces(s: string) {
    Lacks(s, '{') && Lacks(s, '}')
  }

  /** Brace-free text passes through `str.format` unchanged. */
  lemma {:induction false} FormatLiteralPrefix(lit: string, rest: string, arg: string, used: bool)
    requires NoBraces(lit)
    ensures AutoFieldsOnly(lit + rest) == AutoFieldsOnly(rest)
    ensures AutoFieldsOnly(rest) ==> Format(lit + rest, arg, used) == Prepend(lit, Format(rest, arg, used))
    decreases |lit|
  {
    if |lit| > 0 {
      var t := lit + rest;
      assert t[1..] == lit[1..] + rest;
      FormatLiteralPrefix(lit[1..], rest, arg, used);
      if AutoFieldsOnly(rest) {
        assert [lit[0]] + lit[1..] == lit;
      }
    } else {
      assert lit + rest == rest;
    }
  }

  /** A `{}` field takes the argument the first time and raises after. */
  lemma FormatAutoField(rest: string, arg: string, used: bool)
    ensures AutoFieldsOnly("{}" + rest) == AutoFieldsOnly(rest)
    ensures AutoFieldsOnly(rest) ==>
              Format("{}" + rest, arg, used) == if used then Raised else Prepend(arg, Format(rest, arg, true))
  {
    assert ("{}" + rest)[2..] == rest;
  }

  /** A doubled brace stands for one brace. */
  lemma FormatDoubledBrace(b: char, rest: string, arg: string, used: bool)
    requires b == '{' || b == '}'
    ensures AutoFieldsOnly([b, b] + rest) == AutoFieldsOnly(rest)
    ensures AutoFieldsOnly(rest) ==> Format([b, b] + rest, arg, used) == Prepend([b], Format(rest, arg, used))
  {
    var t := [b, b] + rest;
    assert t[2..] == rest;
    assert t[1..][1..] == rest;
  }

  /** A `}` that is not doubled raises. */
  lemma FormatLoneClose(c: char, rest: string, arg: string, used: bool)
    requires c != '}' && c != '{'
    ensures AutoFieldsOnly(['}', c] + rest) == AutoFieldsOnly(rest)
    ensures AutoFieldsOnly(rest) ==> Format(['}', c] + rest, arg, used) == Raised
  {
    var t := ['}', c] + rest;
    assert t[1..][1..] == rest;
  }

  /** Brace-free text is a template that formats to itself. */
  lemma FormatLiteral(lit: string, arg: string, used: bool)
    requires NoBraces(lit)
    ensures AutoFieldsOnly(lit) && Format(lit, arg, used) == Formatted(lit)
  {
    FormatLiteralPrefix(lit, "", arg, used);
    assert lit + "" == lit;
  }

  lemma PrependPrepend(p: string, q: string, f: Formatted)
    ensures Prepend(p, Prepend(q, f)) == Prepend(p + q, f)
  {
    if f.Formatted? {
      assert p + (q + f.text) == (p + q) + f.text;
    }
  }

  lemma NoBracesConcat(a: string, b: string)
    requires NoBraces(a) && NoBraces(b)
    ensures NoBraces(a + b)
  {
    forall i | 0 <= i < |a + b| ensures (a + b)[i] != '{' && (a + b)[i] != '}' {
      if i >= |a| { assert (a + b)[i] == b[i - |a|]; }
    }
  }

  /** Without braces in the code or the contents, the source's construction
      is the literal construct. */
  lemma FormatAgreesWithoutBraces(code: string, contents: string, value: Option<string>)
    requires NoBraces(code) && NoBraces(contents)
    ensures AutoFieldsOnly(Template(code, contents))
    ensures FormatAsWritten(code, contents, value) == Formatted(Wrap(code, contents, value))
  {
    var arg := if value.Some? then "=" + value.value else "";
    NoBracesConcat("[", code);
    var head := "[" + code;
    NoBracesConcat("]", contents);
    NoBracesConcat("]" + contents, "[/");
    NoBracesConcat("]" + contents + "[/", code);
    NoBracesConcat("]" + contents + "[/" + code, "]");
    var tail := "]" + contents + "[/" + code + "]";
    var t := Template(code, contents);
    assert t == head + ("{}" + tail);
    FormatLiteral(tail, arg, true);
    FormatAutoField(tail, arg, false);
    FormatLiteralPrefix(head, "{}" + tail, arg, false);
    var w := head + (arg + tail);
    assert Format(t, arg, false) == Formatted(w);
    WrapAsTemplateParts(code, contents, arg, value);
  }

  lemma WrapAsTemplateParts(code: string, contents: string, arg: string, value: Option<string>)
    requires arg == if value.Some? then "=" + value.value else ""
    ensures ("[" + code) + (arg + ("]" + contents + "[/" + code + "]")) == Wrap(code, contents, value)
  {
    var open := "[" + code + arg + "]";
    assert OpenTag(code, value) == open;
    var close := "[/" + code + "]";
    calc {
      ("[" + code) + (arg + ("]" + contents + "[/" + code + "]"));
      { assert "]" + contents + "[/" + code + "]" == "]" + contents + close; }
      ("[" + code) + (arg + ("]" + contents + close));
      { assert ("[" + code) + (arg + ("]" + contents + close)) == open + contents + close; }
      open + contents + close;
    }
  }

  lemma NoBracesSuffix(a: string, k: nat)
    requires NoBraces(a) && k <= |a|
    ensures NoBraces(a[k..])
  {
    forall i | 0 <= i < |a| - k ensures a[k..][i] != '{' && a[k..][i] != '}' {
      assert a[k..][i] == a[k + i];
    }
  }

  lemma Regroup(a: string, p: string, m: string, q: string, c: string)
    ensures (a + p) + (m + (q + c)) == a + (p + m + q) + c
  {
  }

  /** The template for contents `pre + mid + post`, cut where `mid` sits. */
  lemma TemplateAround(code: string, pre: string, mid: string, post: string)
    ensures Template(code, pre + mid + post)
            == ("[" + code) + ("{}" + (("]" + pre) + (mid + (post + CloseTag(code)))))
  {
  }

  /** A lone `}` anywhere in brace-free contents makes `str.format` raise,
      so the conversion aborts instead of producing the construct. */
  lemma LoneCloseRaises(code: string, pre: string, post: string, value: Option<string>)
    requires NoBraces(code) && NoBraces(pre) && NoBraces(post)
    ensures AutoFieldsOnly(Template(code, pre + "}" + post))
    ensures FormatAsWritten(code, pre + "}" + post, value) == Raised
  {
    var arg := if value.Some? then "=" + value.value else "";
    NoBracesConcat("[/", code);
    NoBracesConcat("[/" + code, "]");
    NoBracesConcat(post, CloseTag(code));
    var close := post + CloseTag(code);
    NoBracesSuffix(close, 1);
    FormatLiteral(close[1..], arg, true);
    assert "}" + close == ['}', close[0]] + close[1..];
    FormatLoneClose(close[0], close[1..], arg, true);
    NoBracesConcat("]", pre);
    var lit := "]" + pre;
    FormatLiteralPrefix(lit, "}" + close, arg, true);
    var field := lit + ("}" + close);
    FormatAutoField(field, arg, false);
    NoBracesConcat("[", code);
    FormatLiteralPrefix("[" + code, "{}" + field, arg, false);
    TemplateAround(code, pre, "}", post);
  }

  /** An empty pair of braces in brace-free contents is a second automatic
      field, for which there is no argument: `str.format` raises. */
  lemma EmptyFieldRaises(code: string, pre: string, post: string, value: Option<string>)
    requires NoBraces(code) && NoBraces(pre) && NoBraces(post)
    ensures AutoFieldsOnly(Template(code, pre + "{}" + post))
    ensures FormatAsWritten(code, pre + "{}" + post, value) == Raised
  {
    var arg := if value.Some? then "=" + value.value else "";
    NoBracesConcat("[/", code);
    NoBracesConcat("[/" + code, "]");
    NoBracesConcat(post, CloseTag(code));
    var close := post + CloseTag(code);
    FormatLiteral(close, arg, true);
    FormatAutoField(close, arg, true);
    NoBracesConcat("]", pre);
    var lit := "]" + pre;
    FormatLiteralPrefix(lit, "{}" + close, arg, true);
    var field := lit + ("{}" + close);
    FormatAutoField(field, arg, false);
    NoBracesConcat("[", code);
    FormatLiteralPrefix("[" + code, "{}" + field, arg, false);
    TemplateAround(code, pre, "{}", post);
  }

  lemma DoubledBraceFormats(code: string, pre: string, b: char, post: string, arg: string, value: Option<string>)
    requires NoBraces(code) && NoBraces(pre) && NoBraces(post)
    requires b == '{' || b == '}'
    requires arg == if value.Some? then "=" + value.value else ""
    ensures AutoFieldsOnly(Template(code, pre + [b, b] + post))
    ensures FormatAsWritten(code, pre + [b, b] + post, value)
            == Formatted(("[" + code) + (arg + (("]" + pre) + ([b] + (post + CloseTag(code))))))
  {
    NoBracesConcat("[/", code);
    NoBracesConcat("[/" + code, "]");
    NoBracesConcat(post, CloseTag(code));
    var close := post + CloseTag(code);
    FormatLiteral(close, arg, true);
    FormatDoubledBrace(b, close, arg, true);
    NoBracesConcat("]", pre);
    var lit := "]" + pre;
    FormatLiteralPrefix(lit, [b, b] + close, arg, true);
    var field := lit + ([b, b] + close);
    FormatAutoField(field, arg, false);
    NoBracesConcat("[", code);
    FormatLiteralPrefix("[" + code, "{}" + field, arg, false);
    TemplateAround(code, pre, [b, b], post);
  }

  /** A doubled brace in otherwise brace-free contents comes out single:
      the output is the construct for different contents. */
  lemma DoubledBraceCollapses(code: string, pre: string, b: char, post: string, value: Option<string>)
    requires NoBraces(code) && NoBraces(pre) && NoBraces(post)
    requires b == '{' || b == '}'
    ensures AutoFieldsOnly(Template(code, pre + [b, b] + post))
    ensures FormatAsWritten(code, pre + [b, b] + post, value) == Formatted(Wrap(code, pre + [b] + post, value))
  {
    var arg := if value.Some? then "=" + value.value else "";
    DoubledBraceFormats(code, pre, b, post, arg, value);
    Regroup("]", pre, [b], post, CloseTag(code));
    WrapAsTemplateParts(code, pre + [b] + post, arg, value);
  }

  /** `*a}b*` aborts the conversion. */
  lemma LoneBraceExample()
    ensures AutoFieldsOnly(Template("i", "a}b"))
    ensures FormatAsWritten("i", "a}b", None) == Raised
  {
    LoneCloseRaises("i", "a", "b", None);
    assert "a" + "}" + "b" == "a}b";
  }

  /** `*{{x*` renders as `[i]{x[/i]`, not as `[i]{{x[/i]`. */
  lemma DoubledBraceExample()
    ensures AutoFieldsOnly(Template("i", "{{x"))
    ensures FormatAsWritten("i", "{{x", None) == Formatted("[i]{x[/i]")
    ensures FormatAsWritten("i", "{{x", None) != Formatted(Wrap("i", "{{x", None))
  {
    DoubledBraceCollapses("i", "", '{', "x", None);
    assert "" + ['{', '{'] + "x" == "{{x";
    assert "" + ['{'] + "x" == "{x";
    EmphasisText();
  }

  lemma EmphasisText()
    ensures Wrap("i", "{x", None) == "[i]{x[/i]"
    ensures |Wrap("i", "{{x", None)| == 10
  {
    assert OpenTag("i", None) == "[i]";
    assert CloseTag("i") == "[/i]";
  }
}
