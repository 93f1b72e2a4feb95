/** What happens when the generate button is pressed: a blank description is refused
    with an error message; otherwise the uploaded captures are encoded and the
    generation request's content is built. */
module Generate {
  import opened Text
  import opened Prompt

  /** An uploaded file: its bytes and its declared media type ("" when it has none). */
  datatype Upload = Upload(content: seq<bv8>, mimeType: string)

  /** Either the error shown to the user, or the content of the generation request. */
  datatype Outcome = ShowError(message: string) | Request(content: seq<Block>)

  const MissingDescription := "Añade una descripción funcional"
  const DefaultMediaType := "image/png"

  /** `f.type or "image/png"` */
  function MediaTypeOf(f: Upload): string {
    if f.mimeType == "" then DefaultMediaType else f.mimeType
  }

  /** Encodes every upload, in order, paired with its media type. `encode` stands for
      base64 encoding followed by UTF-8 decoding. */
  method CollectImages(uploads: seq<Upload>, encode: seq<bv8> -> string) returns (images: seq<Image>)
    ensures |images| == |uploads|
    ensures forall i :: 0 <= i < |uploads| ==> images[i] == Image(encode(uploads[i].content), MediaTypeOf(uploads[i]))
  {
    images := [];
    for k := 0 to |uploads|
      invariant |images| == k
      invariant forall i :: 0 <= i < k ==> images[i] == Image(encode(uploads[i].content), MediaTypeOf(uploads[i]))
    {
      var f := uploads[k];
      var mt := if f.mimeType == "" then DefaultMediaType else f.mimeType;
      images := images + [Image(encode(f.content), mt)];
    }
  }

  /** The button handler. A description that is blank once stripped gives the error and
      no request; any other description gives the request built from the form. */
  method HandleGenerate(moduleName: string, feature: string, description: string, context: string,
                        uploads: seq<Upload>, encode: seq<bv8> -> string) returns (outcome: Outcome)
    ensures outcome.ShowError? <==> AllSpace(description)
    ensures outcome.ShowError? ==> outcome.message == MissingDescription
    ensures outcome.Request? ==>
      |outcome.content| == 1 + |uploads|
      && outcome.content[0] == TextBlock(PromptText(moduleName, feature, description, context, |uploads|))
      && forall i :: 0 <= i < |uploads| ==>
           outcome.content[i + 1] == ImageBlock(MediaTypeOf(uploads[i]), encode(uploads[i].content))
  {
    StripBlank(description);
    if Strip(description) == "" {
      outcome := ShowError(MissingDescription);
    } else {
      var images := CollectImages(uploads, encode);
      var content := ComposeUserContent(moduleName, feature, description, context, images);
      outcome := Request(content);
    }
  }
}
