/** The user message sent with a generation request (the request-building part of
    `generate_pbis`): one text block describing the feature, followed by one image
    block per uploaded capture. */
module Prompt {
  import opened Text

  /** An uploaded capture: its base64 text and its media type. */
  datatype Image = Image(data: string, mediaType: string)

  /** A content block of the message. Every image block's source is of type "base64". */
  datatype Block = TextBlock(text: string) | ImageBlock(mediaType: string, data: string)

  // ---------------------------------------------------------------------------
  // Decimal numerals, for the number of captures quoted in the text

  predicate IsDigit(c: char) {
    '0' <= c <= '9'
  }

  function Digit(d: nat): (c: char)
    requires d < 10
    ensures IsDigit(c) && c as int - '0' as int == d
  {
    ('0' as int + d) as char
  }

  /** Python's `str(n)` for a non-negative integer. */
  function NatToString(n: nat): (s: string)
    ensures |s| > 0 && forall i :: 0 <= i < |s| ==> IsDigit(s[i])
    ensures s[0] == '0' ==> n == 0
  {
    if n < 10 then [Digit(n)] else NatToString(n / 10) + [Digit(n % 10)]
  }

  /** The value of a decimal numeral. */
  function ParseNat(s: string): nat
    requires forall i :: 0 <= i < |s| ==> IsDigit(s[i])
  {
    if s == [] then 0
    else
      var last := s[|s| - 1];
      assert IsDigit(last);
      ParseNat(s[..|s| - 1]) * 10 + (last as int - '0' as int)
  }

  /** The numeral reads back as the number it was written from. */
  lemma {:induction false} ParseNatToString(n: nat)
    ensures ParseNat(NatToString(n)) == n
  {
    if n >= 10 {
      var s := NatToString(n);
      assert s[..|s| - 1] == NatToString(n / 10);
      ParseNatToString(n / 10);
    }
  }

  lemma NatToStringInjective(a: nat, b: nat)
    requires NatToString(a) == NatToString(b)
    ensures a == b
  {
    ParseNatToString(a);
    ParseNatToString(b);
  }

  // ---------------------------------------------------------------------------
  // The text block

  /** Python's `s or fallback` on strings: `s` unless it is empty. */
  function OrElse(s: string, fallback: string): string {
    if s == "" then fallback else s
  }

  const ModuleLabel := "MÓDULO: "
  const ModuleDefault := "No especificado"
  const FeatureLabel := "\nFEATURE: "
  const FeatureDefault := "No especificada"
  const DescriptionLabel := "\n\nDESCRIPCIÓN:\n"

  function Header(moduleName: string, feature: string): string {
    ModuleLabel + OrElse(moduleName, ModuleDefault)
    + FeatureLabel + OrElse(feature, FeatureDefault) + DescriptionLabel
  }

  function ContextParagraph(context: string): string {
    "\n\nCONTEXTO TÉCNICO:\n" + context
  }

  const NoteOpen := "\n\nSe adjuntan "
  const NoteClose := " captura(s) del prototipo (Captura 1, 2...). Analízalas y referéncialas en los PBIs."

  function CaptureNote(count: nat): string {
    NoteOpen + NatToString(count) + NoteClose
  }

  /** The text of the first block: the header with its defaults, the description, the
      context paragraph when a context is given, and the capture note when there are
      captures, in that order. */
  function PromptText(moduleName: string, feature: string, description: string, context: string,
                      imageCount: nat): string {
    Header(moduleName, feature) + description
    + (if context == "" then "" else ContextParagraph(context))
    + (if imageCount == 0 then "" else CaptureNote(imageCount))
  }

  /** Builds the text as `generate_pbis` does: the header and description, then
      conditional appends. */
  method ComposeText(moduleName: string, feature: string, description: string, context: string,
                     images: seq<Image>) returns (text: string)
    ensures text == PromptText(moduleName, feature, description, context, |images|)
  {
    text := Header(moduleName, feature) + description;
    if context != "" {
      text := text + ContextParagraph(context);
    }
    if images != [] {
      text := text + CaptureNote(|images|);
    }
  }

  /** The message content: the text block, then one image block per capture, in order. */
  method ComposeUserContent(moduleName: string, feature: string, description: string, context: string,
                            images: seq<Image>) returns (content: seq<Block>)
    ensures |content| == 1 + |images|
    ensures content[0] == TextBlock(PromptText(moduleName, feature, description, context, |images|))
    ensures forall i :: 0 <= i < |images| ==> content[i + 1] == ImageBlock(images[i].mediaType, images[i].data)
  {
    var text := ComposeText(moduleName, feature, description, context, images);
    content := [TextBlock(text)];
    for k := 0 to |images|
      invariant |content| == 1 + k
      invariant content[0] == TextBlock(text)
      invariant forall i :: 0 <= i < k ==> content[i + 1] == ImageBlock(images[i].mediaType, images[i].data)
    {
      content := content + [ImageBlock(images[k].mediaType, images[k].data)];
    }
  }

  // ---------------------------------------------------------------------------
  // Properties of the text

  /** An empty module is shown as its default; any other module as given. */
  lemma HeaderShowsModule(moduleName: string, feature: string)
    ensures moduleName == "" ==> StartsWith(Header(moduleName, feature), ModuleLabel + ModuleDefault + "\n")
    ensures moduleName != "" ==> StartsWith(Header(moduleName, feature), ModuleLabel + moduleName + "\n")
  {
    Split4(ModuleLabel + OrElse(moduleName, ModuleDefault), FeatureLabel, OrElse(feature, FeatureDefault),
           DescriptionLabel);
  }

  /** An empty feature is shown as its default; any other feature as given. The header
      ends with the description label. */
  lemma HeaderShowsFeature(moduleName: string, feature: string)
    ensures feature == "" ==> EndsWith(Header(moduleName, feature), FeatureLabel + FeatureDefault + DescriptionLabel)
    ensures feature != "" ==> EndsWith(Header(moduleName, feature), FeatureLabel + feature + DescriptionLabel)
  {
    Split4(ModuleLabel + OrElse(moduleName, ModuleDefault), FeatureLabel, OrElse(feature, FeatureDefault),
           DescriptionLabel);
  }

  lemma Split4(a: string, b: string, c: string, d: string)
    requires |b| > 0
    ensures StartsWith(a + b + c + d, a + [b[0]])
    ensures EndsWith(a + b + c + d, b + c + d)
  {
    assert (a + b + c + d)[..|a| + 1] == a + [b[0]];
    assert (a + b + c + d)[|a|..] == b + c + d;
  }

  /** The description comes right after the header, which closes with the
      description label; the optional paragraphs only follow it. */
  lemma DescriptionAfterLabel(moduleName: string, feature: string, description: string, context: string,
                              imageCount: nat)
    ensures StartsWith(PromptText(moduleName, feature, description, context, imageCount),
                       Header(moduleName, feature) + description)
  {
    var h := Header(moduleName, feature) + description;
    var x := if context == "" then "" else ContextParagraph(context);
    var y := if imageCount == 0 then "" else CaptureNote(imageCount);
    StartsWithAppend(h, x);
    StartsWithAppend(h + x, y);
    StartsWithTrans(h + x + y, h + x, h);
  }

  /** Without a context and without captures the text ends with the description. */
  lemma BareText(moduleName: string, feature: string, description: string)
    ensures PromptText(moduleName, feature, description, "", 0) == Header(moduleName, feature) + description
  {
  }

  /** With captures the text is the header, the description, the context paragraph
      exactly when a context is given, and the capture note last; the number quoted
      in the note reads back as the number of captures. */
  lemma NoteQuotesCount(moduleName: string, feature: string, description: string, context: string,
                        imageCount: nat)
    requires imageCount > 0
    ensures context == "" ==> PromptText(moduleName, feature, description, context, imageCount)
                              == Header(moduleName, feature) + description + CaptureNote(imageCount)
    ensures context != "" ==> PromptText(moduleName, feature, description, context, imageCount)
                              == Header(moduleName, feature) + description + ContextParagraph(context)
                                 + CaptureNote(imageCount)
    ensures EndsWith(PromptText(moduleName, feature, description, context, imageCount), CaptureNote(imageCount))
    ensures context != "" ==> StartsWith(PromptText(moduleName, feature, description, context, imageCount),
                                         Header(moduleName, feature) + description + ContextParagraph(context))
    ensures ParseNat(NatToString(imageCount)) == imageCount
  {
    ThreeParts(Header(moduleName, feature) + description,
               if context == "" then "" else ContextParagraph(context), CaptureNote(imageCount));
    ParseNatToString(imageCount);
  }

  lemma ThreeParts(a: string, b: string, c: string)
    ensures StartsWith(a + b + c, a + b) && EndsWith(a + b + c, c)
    ensures b == "" ==> a + b + c == a + c
  {
    assert (a + b + c)[..|a + b|] == a + b;
    assert (a + b + c)[|a + b|..] == c;
    if b == "" {
      assert a + b == a;
    }
  }

  /** Without captures there is no capture note: the text is the header and the
      description, followed by the context paragraph exactly when a context is given. */
  lemma NoNoteWithoutImages(moduleName: string, feature: string, description: string, context: string)
    ensures context == "" ==> PromptText(moduleName, feature, description, context, 0)
                              == Header(moduleName, feature) + description
    ensures context != "" ==> PromptText(moduleName, feature, description, context, 0)
                              == Header(moduleName, feature) + description + ContextParagraph(context)
    ensures context != "" ==> EndsWith(PromptText(moduleName, feature, description, context, 0),
                                       ContextParagraph(context))
  {
    var t := PromptText(moduleName, feature, description, context, 0);
    if context != "" {
      var front := Header(moduleName, feature) + description;
      assert t == front + ContextParagraph(context);
      assert t[|t| - |ContextParagraph(context)|..] == ContextParagraph(context);
    }
  }
}
