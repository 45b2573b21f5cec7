/**
 * The comment half of the Java writer: the raw text built for line, block
 * and Javadoc comments, and the `format` wrapper that hands it to the
 * external source formatter. These visits return text; they never touch the
 * writer's buffer.
 */
module JavaComments {
  import opened Wrappers
  import opened Text
  import opened JavaAst

  /** What the external formatter does with a source text: it either returns
      the formatted text or throws. */
  datatype FormatResult = Formatted(text: string) | FormatterException(message: string)

  /** The external formatter, uninterpreted. */
  type SourceFormatter = string -> FormatResult

  /** `format`: the formatter's output, or the empty string when it throws
      (the exception's message goes to standard output, which is not modelled). */
  function Format(formatter: SourceFormatter, source: string): (r: string)
    ensures formatter(source).Formatted? ==> r == formatter(source).text
    ensures formatter(source).FormatterException? ==> r == ""
  {
    match formatter(source)
    case Formatted(text) => text
    case FormatterException(_) => ""
  }

  /** A caller of `format` cannot tell a formatter failure from a formatter
      that produced empty text. */
  lemma {:induction false} FormatFailureLooksEmpty(formatter: SourceFormatter, bad: string, good: string)
    requires formatter(bad).FormatterException?
    requires formatter(good) == Formatted("")
    ensures Format(formatter, bad) == Format(formatter, good) == ""
  {
  }

  /* ------------------------------------------------------------- line */

  const LineCommentPrefix := "// "

  /** The text handed to the formatter for a line comment: each line of the
      comment (split on `\r?\n`) prefixed with "// ", joined with "\n". */
  function LineCommentSource(c: LineComment): string
  {
    Join("\n", PrefixEach(LineCommentPrefix, SplitLines(c.comment)))
  }

  function VisitLineComment(formatter: SourceFormatter, c: LineComment): (r: string)
    ensures formatter(LineCommentSource(c)).Formatted? ==> r == formatter(LineCommentSource(c)).text
    ensures r != "" ==> formatter(LineCommentSource(c)) == Formatted(r)
  {
    Format(formatter, LineCommentSource(c))
  }

  /** The shape of a line comment's raw text. Its body lines are the comment
      with CRLFs normalised and trailing line breaks dropped, cut at each
      newline; the raw text has exactly one physical line per body line,
      each being "// " followed by that body line. A comment made only of
      line breaks yields the empty text. */
  lemma {:induction false} LineCommentShape(c: LineComment)
    ensures var body := SplitLines(c.comment);
      && Join("\n", body) == TrimTrailingNewlines(NormalizeLineBreaks(c.comment))
      && NoNewlines(body)
      && (|body| == 0 ==> LineCommentSource(c) == "")
      && (|body| > 0 ==> SplitAtNewline(LineCommentSource(c)) == PrefixEach(LineCommentPrefix, body))
  {
    var body := SplitLines(c.comment);
    SplitLinesJoin(c.comment);
    PrefixEachNoNewlines(LineCommentPrefix, body);
    if |body| > 0 {
      SplitAtNewlineOfJoin(PrefixEach(LineCommentPrefix, body));
    }
  }

  /* ------------------------------------------------------------ block */

  function BlockCommentSource(c: BlockComment): string
  {
    "/** " + c.comment + " */"
  }

  function VisitBlockComment(formatter: SourceFormatter, c: BlockComment): (r: string)
    ensures formatter(BlockCommentSource(c)).Formatted? ==> r == formatter(BlockCommentSource(c)).text
    ensures r != "" ==> formatter(BlockCommentSource(c)) == Formatted(r)
  {
    Format(formatter, BlockCommentSource(c))
  }

  /** The block comment's raw text is its body, whole and unsplit, between the
      delimiters "/** " and " */". */
  lemma {:induction false} BlockCommentWraps(c: BlockComment)
    ensures var s := BlockCommentSource(c);
      && |s| == |c.comment| + 7
      && s[..4] == "/** "
      && s[4..|s| - 3] == c.comment
      && s[|s| - 3..] == " */"
  {
  }

  /* ---------------------------------------------------------- Javadoc */

  /** One "* c\n" per description paragraph, in order. */
  function DescriptionText(comments: seq<string>): string
  {
    if |comments| == 0 then ""
    else "* " + comments[0] + "\n" + DescriptionText(comments[1..])
  }

  /** One "* @param name description\n" per entry, in map order. */
  function ParamsText(params: seq<(string, string)>): string
  {
    if |params| == 0 then ""
    else "* @param " + params[0].0 + " " + params[0].1 + "\n" + ParamsText(params[1..])
  }

  /** The body lines of one code sample, each prefixed with "* ". */
  function SampleBody(sample: string): seq<string>
  {
    PrefixEach("* ", SplitLines(sample))
  }

  const SampleHeading := "* Sample code:"
  const CodeOpen := "* <pre><code>"
  const CodeClose := "* </code></pre>"

  /** One fenced block per code sample: heading, opening fence, the sample's
      lines, closing fence, each followed by a newline. */
  function SamplesText(samples: seq<string>): string
  {
    if |samples| == 0 then ""
    else
      SampleHeading + "\n" + CodeOpen + "\n" + Join("\n", SampleBody(samples[0])) + "\n" + CodeClose + "\n"
      + SamplesText(samples[1..])
  }

  /** `tag + text + "\n"` when the optional text is present, nothing otherwise. */
  function OptionalLine(tag: string, text: Option<string>): string
  {
    if text.Some? then tag + text.value + "\n" else ""
  }

  /** The raw Javadoc text as the evidently intended code builds it: the
      `@deprecated` and `@throws` lines carry the optional's contents. */
  function JavaDocSource(d: JavaDocComment): string
  {
    "/**\n" + DescriptionText(d.comments) + ParamsText(d.params) + SamplesText(d.sampleCode)
    + OptionalLine("* @deprecated ", d.deprecated)
    + OptionalLine("* @throws ", d.throwsText)
    + "*/"
  }

  function VisitJavaDoc(formatter: SourceFormatter, d: JavaDocComment): (r: string)
    ensures formatter(JavaDocSource(d)).Formatted? ==> r == formatter(JavaDocSource(d)).text
    ensures r != "" ==> formatter(JavaDocSource(d)) == Formatted(r)
  {
    Format(formatter, JavaDocSource(d))
  }

  /** `String.valueOf` of a present `java.util.Optional<String>`. */
  function OptionalToString(text: string): string
  {
    "Optional[" + text + "]"
  }

  function OptionalToStringLine(tag: string, text: Option<string>): string
  {
    if text.Some? then tag + OptionalToString(text.value) + "\n" else ""
  }

  /** The raw Javadoc text as the code is written: the `@deprecated` and
      `@throws` lines concatenate the `Optional` object itself, so its
      `toString` wrapper appears in the text. */
  function JavaDocSourceAsWritten(d: JavaDocComment): (r: string)
    ensures |r| >= 6 && r[..4] == "/**\n" && r[|r| - 2..] == "*/"
  {
    "/**\n" + DescriptionText(d.comments) + ParamsText(d.params) + SamplesText(d.sampleCode)
    + OptionalToStringLine("* @deprecated ", d.deprecated)
    + OptionalToStringLine("* @throws ", d.throwsText)
    + "*/"
  }

  function VisitJavaDocAsWritten(formatter: SourceFormatter, d: JavaDocComment): (r: string)
    ensures formatter(JavaDocSourceAsWritten(d)).Formatted? ==> r == formatter(JavaDocSourceAsWritten(d)).text
    ensures r != "" ==> formatter(JavaDocSourceAsWritten(d)) == Formatted(r)
  {
    Format(formatter, JavaDocSourceAsWritten(d))
  }

  /* Reference layout: the Javadoc as a list of physical lines. */

  function ParamLines(params: seq<(string, string)>): (r: seq<string>)
    ensures |r| == |params|
    ensures forall i :: 0 <= i < |params| ==> r[i] == "* @param " + params[i].0 + " " + params[i].1
  {
    if |params| == 0 then [] else ["* @param " + params[0].0 + " " + params[0].1] + ParamLines(params[1..])
  }

  /** The lines of one sample block. A sample with no body lines (one made
      only of line breaks) still leaves one empty line inside the fence. */
  function SampleLines(sample: string): seq<string>
  {
    var body := SampleBody(sample);
    [SampleHeading, CodeOpen] + (if |body| == 0 then [""] else body) + [CodeClose]
  }

  function AllSampleLines(samples: seq<string>): seq<string>
  {
    if |samples| == 0 then [] else SampleLines(samples[0]) + AllSampleLines(samples[1..])
  }

  function OptionalLines(tag: string, text: Option<string>): seq<string>
  {
    if text.Some? then [tag + text.value] else []
  }

  /** The Javadoc's lines in their fixed order: opener, descriptions,
      parameters, sample blocks, deprecation, throws, closer. */
  function JavaDocLines(d: JavaDocComment): seq<string>
  {
    ["/**"]
    + PrefixEach("* ", d.comments)
    + ParamLines(d.params)
    + AllSampleLines(d.sampleCode)
    + OptionalLines("* @deprecated ", d.deprecated)
    + OptionalLines("* @throws ", d.throwsText)
    + ["*/"]
  }

  lemma {:induction false} DescriptionTextLines(comments: seq<string>)
    ensures DescriptionText(comments) == Terminated("\n", PrefixEach("* ", comments))
  {
    if |comments| > 0 {
      DescriptionTextLines(comments[1..]);
      assert PrefixEach("* ", comments)[1..] == PrefixEach("* ", comments[1..]);
    }
  }

  lemma {:induction false} ParamsTextLines(params: seq<(string, string)>)
    ensures ParamsText(params) == Terminated("\n", ParamLines(params))
  {
    if |params| > 0 {
      ParamsTextLines(params[1..]);
      assert ParamLines(params)[1..] == ParamLines(params[1..]);
    }
  }

  /** Two fixed lines, a middle run, one fixed line: each line terminated. */
  lemma {:induction false} FramedLines(sep: string, x: string, y: string, mid: seq<string>, z: string)
    ensures Terminated(sep, [x, y] + mid + [z])
         == x + sep + y + sep + Terminated(sep, mid) + z + sep
  {
    TerminatedAppend(sep, [x, y] + mid, [z]);
    TerminatedAppend(sep, [x, y], mid);
    TerminatedSingle(sep, z);
    TerminatedSingle(sep, y);
    assert [x, y][1..] == [y];
  }

  lemma {:induction false} SampleTextLines(sample: string)
    ensures SampleHeading + "\n" + CodeOpen + "\n" + Join("\n", SampleBody(sample)) + "\n" + CodeClose + "\n"
         == Terminated("\n", SampleLines(sample))
  {
    var body := SampleBody(sample);
    var mid := if |body| == 0 then [""] else body;
    if |body| > 0 {
      JoinThenSeparator("\n", body);
    } else {
      TerminatedSingle("\n", "");
    }
    var J := Join("\n", body);
    FramedLines("\n", SampleHeading, CodeOpen, mid, CodeClose);
    Associate(SampleHeading + "\n" + CodeOpen + "\n", J, "\n");
  }

  lemma {:induction false} TerminatedSingle(sep: string, x: string)
    ensures Terminated(sep, [x]) == x + sep
  {
    assert [x][1..] == [];
  }

  lemma {:induction false} SamplesTextLines(samples: seq<string>)
    ensures SamplesText(samples) == Terminated("\n", AllSampleLines(samples))
  {
    if |samples| > 0 {
      SamplesTextLines(samples[1..]);
      SampleTextLines(samples[0]);
      TerminatedAppend("\n", SampleLines(samples[0]), AllSampleLines(samples[1..]));
    }
  }

  lemma {:induction false} OptionalLineLines(tag: string, text: Option<string>)
    ensures OptionalLine(tag, text) == Terminated("\n", OptionalLines(tag, text))
  {
  }

  /** The raw Javadoc text is exactly its reference lines joined by "\n": the
      opener, one line per description, one per parameter in map order, each
      sample's fenced block, the optional deprecation and throws lines, and
      the closer, in that order. */
  lemma {:induction false} JavaDocSourceIsLines(d: JavaDocComment)
    ensures JavaDocSource(d) == Join("\n", JavaDocLines(d))
  {
    DescriptionTextLines(d.comments);
    ParamsTextLines(d.params);
    SamplesTextLines(d.sampleCode);
    OptionalLineLines("* @deprecated ", d.deprecated);
    OptionalLineLines("* @throws ", d.throwsText);
    JoinSections("\n", "/**", PrefixEach("* ", d.comments), ParamLines(d.params), AllSampleLines(d.sampleCode),
      OptionalLines("* @deprecated ", d.deprecated), OptionalLines("* @throws ", d.throwsText), "*/");
    assert "/**\n" == "/**" + "\n";
  }

  /** Joining an opener, five runs of lines and a closer: every line but the
      closer is followed by the separator. */
  lemma {:induction false} JoinSections(sep: string, x: string, a: seq<string>, b: seq<string>, c: seq<string>,
                                        e: seq<string>, f: seq<string>, z: string)
    ensures Join(sep, [x] + a + b + c + e + f + [z])
         == x + sep + Terminated(sep, a) + Terminated(sep, b) + Terminated(sep, c)
            + Terminated(sep, e) + Terminated(sep, f) + z
  {
    JoinAppend(sep, [x] + a + b + c + e + f, [z]);
    TerminatedAppend(sep, [x] + a + b + c + e, f);
    TerminatedAppend(sep, [x] + a + b + c, e);
    TerminatedAppend(sep, [x] + a + b, c);
    TerminatedAppend(sep, [x] + a, b);
    TerminatedAppend(sep, [x], a);
    TerminatedSingle(sep, x);
  }

  /** Every text a Javadoc carries is free of newlines. */
  predicate SingleLineTexts(d: JavaDocComment)
  {
    && NoNewlines(d.comments)
    && (forall i :: 0 <= i < |d.params| ==> '\n' !in d.params[i].0 && '\n' !in d.params[i].1)
    && (d.deprecated.Some? ==> '\n' !in d.deprecated.value)
    && (d.throwsText.Some? ==> '\n' !in d.throwsText.value)
  }

  lemma {:induction false} AllSampleLinesNoNewlines(samples: seq<string>)
    ensures NoNewlines(AllSampleLines(samples))
  {
    if |samples| > 0 {
      AllSampleLinesNoNewlines(samples[1..]);
      SplitLinesJoin(samples[0]);
      PrefixEachNoNewlines("* ", SplitLines(samples[0]));
      var body := SampleBody(samples[0]);
      var mid := if |body| == 0 then [""] else body;
      NoNewlinesAppend([SampleHeading, CodeOpen], mid);
      NoNewlinesAppend([SampleHeading, CodeOpen] + mid, [CodeClose]);
      NoNewlinesAppend(SampleLines(samples[0]), AllSampleLines(samples[1..]));
    }
  }

  /** Counting lines: when the Javadoc's texts are single lines, cutting the
      raw text at its newlines gives back exactly the reference lines, so the
      rendered comment has one line per description, one per parameter, one
      fenced block per sample, and nothing else besides the optional
      deprecation and throws lines and the delimiters. */
  lemma {:induction false} JavaDocLineStructure(d: JavaDocComment)
    requires SingleLineTexts(d)
    ensures SplitAtNewline(JavaDocSource(d)) == JavaDocLines(d)
    ensures |JavaDocLines(d)| == 2 + |d.comments| + |d.params| + |AllSampleLines(d.sampleCode)|
              + (if d.deprecated.Some? then 1 else 0) + (if d.throwsText.Some? then 1 else 0)
  {
    JavaDocSourceIsLines(d);
    PrefixEachNoNewlines("* ", d.comments);
    AllSampleLinesNoNewlines(d.sampleCode);
    ParamLinesNoNewlines(d.params);
    NoNewlinesSections("/**", PrefixEach("* ", d.comments), ParamLines(d.params), AllSampleLines(d.sampleCode),
      OptionalLines("* @deprecated ", d.deprecated), OptionalLines("* @throws ", d.throwsText), "*/");
    SplitAtNewlineOfJoin(JavaDocLines(d));
  }

  lemma {:induction false} ParamLinesNoNewlines(params: seq<(string, string)>)
    requires forall i :: 0 <= i < |params| ==> '\n' !in params[i].0 && '\n' !in params[i].1
    ensures NoNewlines(ParamLines(params))
  {
    var b := ParamLines(params);
    forall i | 0 <= i < |b| ensures '\n' !in b[i] {
      assert b[i] == "* @param " + params[i].0 + " " + params[i].1;
    }
  }

  lemma {:induction false} NoNewlinesSections(x: string, a: seq<string>, b: seq<string>, c: seq<string>,
                                              e: seq<string>, f: seq<string>, z: string)
    requires '\n' !in x && '\n' !in z
    requires NoNewlines(a) && NoNewlines(b) && NoNewlines(c) && NoNewlines(e) && NoNewlines(f)
    ensures NoNewlines([x] + a + b + c + e + f + [z])
  {
    NoNewlinesAppend([x], a);
    NoNewlinesAppend([x] + a, b);
    NoNewlinesAppend([x] + a + b, c);
    NoNewlinesAppend([x] + a + b + c, e);
    NoNewlinesAppend([x] + a + b + c + e, f);
    NoNewlinesAppend([x] + a + b + c + e + f, [z]);
  }

  lemma {:induction false} NoNewlinesAppend(x: seq<string>, y: seq<string>)
    requires NoNewlines(x) && NoNewlines(y)
    ensures NoNewlines(x + y)
  {
    forall i | 0 <= i < |x + y| ensures '\n' !in (x + y)[i]
    {
      if i < |x| { assert (x + y)[i] == x[i]; } else { assert (x + y)[i] == y[i - |x|]; }
    }
  }

  /** The as-written Javadoc text is the intended text of a comment whose
      optional texts were first wrapped by `Optional.toString`. */
  lemma {:induction false} JavaDocAsWrittenWrapsOptionals(d: JavaDocComment)
    ensures JavaDocSourceAsWritten(d)
         == JavaDocSource(d.(
              deprecated := if d.deprecated.Some? then Some(OptionalToString(d.deprecated.value)) else None,
              throwsText := if d.throwsText.Some? then Some(OptionalToString(d.throwsText.value)) else None))
  {
  }

  /** The same holds of what the formatter is handed. */
  lemma {:induction false} VisitJavaDocAsWrittenWraps(formatter: SourceFormatter, d: JavaDocComment)
    ensures VisitJavaDocAsWritten(formatter, d)
         == VisitJavaDoc(formatter, d.(
              deprecated := if d.deprecated.Some? then Some(OptionalToString(d.deprecated.value)) else None,
              throwsText := if d.throwsText.Some? then Some(OptionalToString(d.throwsText.value)) else None))
  {
    JavaDocAsWrittenWrapsOptionals(d);
  }

  /** Every deprecated (or throwing) Javadoc exhibits the discrepancy: the
      as-written text is 10 characters longer per present optional, the
      length of the "Optional[" and "]" wrapper, so it never equals the
      intended text. For example a deprecation reason "use bar()" yields the
      line "* @deprecated Optional[use bar()]". */
  lemma {:induction false} JavaDocOptionalDiscrepancy(d: JavaDocComment)
    requires d.deprecated.Some? || d.throwsText.Some?
    ensures |JavaDocSourceAsWritten(d)|
         == |JavaDocSource(d)| + (if d.deprecated.Some? then 10 else 0) + (if d.throwsText.Some? then 10 else 0)
    ensures JavaDocSourceAsWritten(d) != JavaDocSource(d)
  {
  }
}
