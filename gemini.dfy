/** `generateSmartCanvas` (services/gemini.ts): building the request for the
    generative model, and turning its HTML reply into the card's markup by
    removing Markdown fences, substituting the `__IMAGE_i__` placeholders and
    appending a strip of the images the reply forgot. The model call itself is
    a parameter: `reply` stands for whatever the service answered. */
module Gemini {
  import opened Wrappers
  import opened Strings
  import opened Types

  /** One part of the request: the prompt text, or an inline image. */
  datatype Part = TextPart(text: string) | InlineData(mimeType: string, data: string)

  /** What the model call did: it threw, or it returned a response whose
      `text` may be missing. */
  datatype ModelReply = Threw | Returned(text: Option<string>)

  /** The one error every failure is turned into. */
  const GenerationFailed: string := "Failed to generate memory canvas."

  // ---------------------------------------------------------------- prompt

  const HeaderOpen: string := "Content to display: \""
  const HeaderClose: string := "\".\n"
  const CountOpen: string := "I have attached "
  const CountCloseRest: string := "Remember to use src=\"__IMAGE_0__\", src=\"__IMAGE_1__\", etc. strictly.\n"
  const CountClose: string := " images. " + CountCloseRest
  const StyleOpen: string := " \nStyle/Design Request: \""
  const StyleClose: string := "\"."

  function PromptHeader(text: string): string {
    HeaderOpen + text + HeaderClose
  }

  function ImageCountLine(count: nat): string {
    CountOpen + NatToString(count) + CountClose
  }

  function StyleLine(userPrompt: string): string {
    StyleOpen + userPrompt + StyleClose
  }

  /** `if (userPrompt)`: present and not empty. */
  predicate StyleRequested(userPrompt: Option<string>) {
    userPrompt.Some? && userPrompt.value != ""
  }

  /** The prompt text: the content line, the image-count line when there are
      images, and the style line when a style was requested. */
  function PromptText(text: string, imageCount: nat, userPrompt: Option<string>): string {
    PromptHeader(text)
      + (if imageCount > 0 then ImageCountLine(imageCount) else "")
      + (if StyleRequested(userPrompt) then StyleLine(userPrompt.value) else "")
  }

  /** The prompt text, built up with `+=`. */
  method BuildPromptText(text: string, imageCount: nat, userPrompt: Option<string>)
    returns (promptText: string)
    ensures promptText == PromptText(text, imageCount, userPrompt)
  {
    promptText := PromptHeader(text);
    if imageCount > 0 {
      promptText := promptText + ImageCountLine(imageCount);
    }
    if StyleRequested(userPrompt) {
      promptText := promptText + StyleLine(userPrompt.value);
    }
  }

  /** The prompt opens with the content line, and is exactly as long as the
      lines it is made of. */
  lemma PromptOpensWithContent(text: string, imageCount: nat, userPrompt: Option<string>)
    ensures StartsWith(PromptText(text, imageCount, userPrompt), PromptHeader(text))
    ensures |PromptText(text, imageCount, userPrompt)| == |PromptHeader(text)|
      + (if imageCount > 0 then |ImageCountLine(imageCount)| else 0)
      + (if StyleRequested(userPrompt) then |StyleLine(userPrompt.value)| else 0)
  {
    var count := if imageCount > 0 then ImageCountLine(imageCount) else "";
    var style := if StyleRequested(userPrompt) then StyleLine(userPrompt.value) else "";
    LayoutOpening(PromptHeader(text), count, style);
  }

  /** The image-count line follows the content line exactly when there are
      images. */
  lemma PromptCountLineIffImages(text: string, imageCount: nat, userPrompt: Option<string>)
    ensures StartsWith(PromptText(text, imageCount, userPrompt)[|PromptHeader(text)|..], ImageCountLine(imageCount))
      <==> imageCount > 0
  {
    var count := if imageCount > 0 then ImageCountLine(imageCount) else "";
    var style := if StyleRequested(userPrompt) then StyleLine(userPrompt.value) else "";
    LayoutOpening(PromptHeader(text), count, style);
    PromptPieceChars(imageCount, if userPrompt.Some? then userPrompt.value else "");
    if imageCount == 0 && style != "" {
      assert (count + style)[0] == ' ';
    }
  }

  /** The prompt ends in a full stop exactly when a style was requested, and
      then it ends with the style line. */
  lemma PromptEndsWithStyleIffRequested(text: string, imageCount: nat, userPrompt: Option<string>)
    ensures var p := PromptText(text, imageCount, userPrompt);
      p[|p| - 1] == '.' <==> StyleRequested(userPrompt)
    ensures StyleRequested(userPrompt) ==>
      EndsWith(PromptText(text, imageCount, userPrompt), StyleLine(userPrompt.value))
  {
    var header := PromptHeader(text);
    var count := if imageCount > 0 then ImageCountLine(imageCount) else "";
    var style := if StyleRequested(userPrompt) then StyleLine(userPrompt.value) else "";
    LayoutEnding(header, count, style);
    if StyleRequested(userPrompt) {
      StyleLineEnding(userPrompt.value);
    } else if imageCount > 0 {
      CountLineEnding(imageCount);
    } else {
      HeaderEnding(text);
    }
  }

  /** The first characters of the image-count and style lines differ. */
  lemma PromptPieceChars(imageCount: nat, userPrompt: string)
    ensures ImageCountLine(imageCount)[0] == 'I'
    ensures StyleLine(userPrompt)[0] == ' '
  {
    assert CountOpen[0] == 'I' && StyleOpen[0] == ' ';
  }

  lemma HeaderEnding(text: string)
    ensures PromptHeader(text)[|PromptHeader(text)| - 1] == '\n'
  {
    assert HeaderClose[|HeaderClose| - 1] == '\n';
  }

  lemma CountLineEnding(imageCount: nat)
    ensures ImageCountLine(imageCount)[|ImageCountLine(imageCount)| - 1] == '\n'
  {
    assert CountClose == " images. " + CountCloseRest;
    assert CountCloseRest[|CountCloseRest| - 1] == '\n';
  }

  lemma StyleLineEnding(userPrompt: string)
    ensures StyleLine(userPrompt)[|StyleLine(userPrompt)| - 1] == '.'
  {
    assert StyleClose[|StyleClose| - 1] == '.';
  }

  /** A string made of three parts opens with the first and continues with
      the other two. */
  lemma LayoutOpening(header: string, count: string, style: string)
    ensures StartsWith(header + count + style, header)
    ensures (header + count + style)[|header|..] == count + style
  {
  }

  /** The last character of a string made of three parts comes from the last
      non-empty part. */
  lemma LayoutEnding(header: string, count: string, style: string)
    requires |header| > 0
    ensures EndsWith(header + count + style, style)
    ensures var s := header + count + style;
      s[|s| - 1] == if style != "" then style[|style| - 1]
                    else if count != "" then count[|count| - 1]
                    else header[|header| - 1]
  {
    var s := header + count + style;
    assert s[|s| - |style|..] == style;
  }

  // -------------------------------------------------------------- data URL

  /** A base64 data URL as section 3 of RFC 2397 writes it. */
  function DataUrl(mediaType: string, payload: string): string {
    "data:" + mediaType + ";base64," + payload
  }

  /** `base64Data.split(',')[1] || base64Data`: the text between the first
      and the second comma, or the whole string when that is missing or empty. */
  function DataUrlPayload(url: string): (data: string)
    ensures data == url || (data != "" && !Contains(data, ","))
  {
    var pieces := Split(url, ",");
    SplitPiecesFree(url, ",");
    if |pieces| >= 2 && pieces[1] != "" then pieces[1] else url
  }

  /** The payload read from any string, stated with `indexOf`: the slice
      after the first comma, up to the next comma or the end, when that slice
      is not empty; the whole string otherwise. */
  lemma DataUrlPayloadExactly(url: string)
    ensures var i := IndexOf(url, ",");
      var rest := if i < 0 then "" else url[i + 1..];
      var j := IndexOf(rest, ",");
      var segment := if j < 0 then rest else rest[..j];
      DataUrlPayload(url) == if i >= 0 && segment != "" then segment else url
  {
    SplitFirst(url, ",");
    var i := IndexOf(url, ",");
    if i >= 0 {
      SplitFirst(url[i + 1..], ",");
    }
  }

  /** `base64Data.substring(indexOf(':') + 1, indexOf(';')) || 'image/jpeg'`. */
  function DataUrlMimeType(url: string): (mime: string)
    ensures mime != ""
  {
    var m := Substring(url, IndexOf(url, ":") + 1, IndexOf(url, ";"));
    if m != "" then m else "image/jpeg"
  }

  /** The payload is read back from a data URL whose parts hold no comma. */
  lemma DataUrlPayloadRoundTrip(mediaType: string, payload: string)
    requires ',' !in mediaType && ',' !in payload && payload != ""
    ensures DataUrlPayload(DataUrl(mediaType, payload)) == payload
  {
    var url := DataUrl(mediaType, payload);
    var head := "data:" + mediaType + ";base64";
    assert url == head + "," + payload;
    assert ',' !in head by {
      forall k | 0 <= k < |head| ensures head[k] != ',' {
        if k >= 5 && k < 5 + |mediaType| { assert head[k] == mediaType[k - 5]; }
      }
    }
    SplitJoinChar([head, payload], ',');
    assert Join([head, payload], ",") == url;
  }

  /** The media type is read back from a data URL whose media type holds
      neither `:` nor `;`. */
  lemma DataUrlMimeTypeRoundTrip(mediaType: string, payload: string)
    requires ':' !in mediaType && ';' !in mediaType
    ensures DataUrlMimeType(DataUrl(mediaType, payload)) == if mediaType == "" then "image/jpeg" else mediaType
  {
    var url := DataUrl(mediaType, payload);
    assert IndexOf(url, ":") == 4 by {
      IndexOfAfterCharFree("data", url[4..], ':');
      assert "data" + url[4..] == url;
    }
    var before := "data:" + mediaType;
    assert IndexOf(url, ";") == |before| by {
      assert ';' !in before by {
        forall k | 0 <= k < |before| ensures before[k] != ';' {
          if k >= 5 { assert before[k] == mediaType[k - 5]; }
        }
      }
      IndexOfAfterCharFree(before, url[|before|..], ';');
      assert before + url[|before|..] == url;
    }
    assert url[5..5 + |mediaType|] == mediaType;
  }

  /** Without `;` the end index is -1, `substring` swaps its arguments, and
      the media type read is the scheme `data:` itself. */
  lemma MimeTypeWithoutParameters(mediaType: string, payload: string)
    requires ':' !in mediaType && ';' !in mediaType && ';' !in payload
    ensures DataUrlMimeType("data:" + mediaType + "," + payload) == "data:"
  {
    var url := "data:" + mediaType + "," + payload;
    IndexOfAfterCharFree("data", url[4..], ':');
    assert "data" + url[4..] == url;
    forall k | 0 <= k < |url| ensures url[k] != ';' {
      if 5 <= k < 5 + |mediaType| { assert url[k] == mediaType[k - 5]; }
      else if k > 5 + |mediaType| { assert url[k] == payload[k - 6 - |mediaType|]; }
    }
    MissingCharNotContained(url, ";", 0);
  }

  /** One inline image of the request, read from its data URL. */
  function ImagePart(url: string): Part {
    InlineData(DataUrlMimeType(url), DataUrlPayload(url))
  }

  /** `xs.map(f)`, built from the back as a loop that pushes would build it. */
  function MapSeq<A, B>(f: A -> B, xs: seq<A>): (ys: seq<B>)
    ensures |ys| == |xs|
  {
    if |xs| == 0 then [] else MapSeq(f, xs[..|xs| - 1]) + [f(xs[|xs| - 1])]
  }

  /** The `i`-th element of a map is `f` of the `i`-th element. */
  lemma {:induction false} MapSeqAt<A, B>(f: A -> B, xs: seq<A>, i: nat)
    requires i < |xs|
    ensures MapSeq(f, xs)[i] == f(xs[i])
    decreases |xs|
  {
    var init := xs[..|xs| - 1];
    if i < |init| {
      MapSeqAt(f, init, i);
      assert init[i] == xs[i];
    }
  }

  /** The inline images of the request, one per data URL, in order. */
  function ImageParts(images: seq<string>): (parts: seq<Part>)
    ensures |parts| == |images|
  {
    MapSeq(ImagePart, images)
  }

  /** The `i`-th inline image is read from the `i`-th data URL. */
  lemma ImagePartsAt(images: seq<string>, i: nat)
    requires i < |images|
    ensures ImageParts(images)[i] == ImagePart(images[i])
  {
    MapSeqAt(ImagePart, images, i);
  }

  /** The request parts: the prompt text, then one inline image per data URL,
      in order (the `forEach` that pushes onto `parts`). */
  method BuildParts(promptText: string, images: seq<string>) returns (parts: seq<Part>)
    ensures parts == [TextPart(promptText)] + ImageParts(images)
  {
    parts := [TextPart(promptText)];
    var i := 0;
    while i < |images|
      invariant 0 <= i <= |images|
      invariant parts == [TextPart(promptText)] + ImageParts(images[..i])
    {
      var base64Clean := DataUrlPayload(images[i]);
      var mimeType := DataUrlMimeType(images[i]);
      parts := parts + [InlineData(mimeType, base64Clean)];
      assert images[..i + 1][..i] == images[..i];
      i := i + 1;
    }
    assert images[..i] == images;
  }

  // ------------------------------------------------------- fence cleanup

  const Fence: string := "```"
  const HtmlFence: string := "```html"

  /** No ``` anywhere in `s`; the same as `!s.includes("```")`. */
  ghost predicate FenceFree(s: string) {
    forall j :: !OccursAt(s, Fence, j)
  }

  /** `html.replace(/```html/g, '').replace(/```/g, '')`. */
  function StripFences(html: string): (clean: string)
    ensures !Contains(clean, Fence) && !Contains(clean, HtmlFence)
  {
    var once := ReplaceAll(html, HtmlFence, "");
    RemovingFencesLeavesNone(once);
    var clean := ReplaceAll(once, Fence, "");
    NoFenceNoHtmlFence(clean);
    clean
  }

  /** "```html" starts with "```". */
  lemma NoFenceNoHtmlFence(s: string)
    requires FenceFree(s)
    ensures !Contains(s, HtmlFence)
  {
    assert HtmlFence[..|Fence|] == Fence;
    forall j ensures !OccursAt(s, HtmlFence, j) {
      if 0 <= j && j + |HtmlFence| <= |s| {
        assert s[j..j + |HtmlFence|][..|Fence|] == s[j..j + |Fence|];
        assert !OccursAt(s, Fence, j);
      }
    }
  }

  /** A reply without fences comes through the cleanup unchanged. */
  lemma StripFencesKeepsCleanHtml(html: string)
    requires !Contains(html, Fence)
    ensures StripFences(html) == html
  {
    NoFenceNoHtmlFence(html);
  }

  /** Removing every ``` leaves none behind: the text before the first
      fence does not end with a backtick (or the fence would start earlier),
      so the pieces cannot combine into a new fence. */
  lemma {:induction false} RemovingFencesLeavesNone(s: string)
    ensures FenceFree(ReplaceAll(s, Fence, ""))
    decreases |s|
  {
    if Contains(s, Fence) {
      var i := IndexOf(s, Fence);
      var tail := s[i + |Fence|..];
      RemovingFencesLeavesNone(tail);
      DeletionUnfold(s, Fence);
      FirstPieceFenceFree(s, i);
      ConcatFenceFree(s[..i], ReplaceAll(tail, Fence, ""));
    }
  }

  /** Deleting every occurrence of `p`: the text before the first one, then
      the rest with its occurrences deleted. */
  lemma DeletionUnfold(s: string, p: string)
    requires |p| > 0 && Contains(s, p)
    ensures ReplaceAll(s, p, "") == s[..IndexOf(s, p)] + ReplaceAll(s[IndexOf(s, p) + |p|..], p, "")
  {
    ReplaceAllUnfold(s, p, "");
    assert s[..IndexOf(s, p)] + "" == s[..IndexOf(s, p)];
  }

  /** The text before the first fence holds no fence and does not end with
      a backtick. */
  lemma FirstPieceFenceFree(s: string, i: int)
    requires i == IndexOf(s, Fence) && i >= 0
    ensures FenceFree(s[..i])
    ensures i == 0 || s[i - 1] != '`'
  {
    forall j ensures !OccursAt(s[..i], Fence, j) {
      if 0 <= j && j + |Fence| <= i {
        assert s[..i][j..j + |Fence|] == s[j..j + |Fence|];
        assert !OccursAt(s, Fence, j);
      }
    }
    if i > 0 && s[i - 1] == '`' {
      FenceAtChars(s, i);
      FenceAtChars(s, i - 1);
    }
  }

  /** A fence is three backticks in a row. */
  lemma FenceAtChars(s: string, j: int)
    ensures OccursAt(s, Fence, j) <==>
      0 <= j && j + 3 <= |s| && s[j] == '`' && s[j + 1] == '`' && s[j + 2] == '`'
  {
    assert Fence == ['`', '`', '`'];
    if 0 <= j && j + 3 <= |s| {
      assert s[j..j + 3] == [s[j], s[j + 1], s[j + 2]];
    }
  }

  /** Two fence-free strings, the first not ending in a backtick, make a
      fence-free string. */
  lemma ConcatFenceFree(a: string, b: string)
    requires FenceFree(a) && FenceFree(b)
    requires |a| == 0 || a[|a| - 1] != '`'
    ensures FenceFree(a + b)
  {
    var s := a + b;
    forall j ensures !OccursAt(s, Fence, j) {
      FenceAtChars(s, j);
      if j + 3 <= |a| {
        FenceAtChars(a, j);
      } else if j >= |a| {
        FenceAtChars(b, j - |a|);
      }
    }
  }

  // ------------------------------------------------ placeholder protocol

  /** `__IMAGE_${index}__`. */
  const PlaceholderOpen: string := "__IMAGE_"
  const PlaceholderClose: string := "__"

  function Placeholder(index: nat): (p: string)
    ensures |p| == 10 + |NatToString(index)|
  {
    PlaceholderOpen + NatToString(index) + PlaceholderClose
  }

  /** No placeholder occurs inside another one: `__IMAGE_1__` is not part of
      `__IMAGE_10__`, because the closing `__` cannot sit where a digit is. */
  lemma {:induction false} PlaceholderNotNested(i: nat, j: nat)
    requires i != j
    ensures !Contains(Placeholder(j), Placeholder(i))
  {
    var pi, pj := Placeholder(i), Placeholder(j);
    var di, dj := NatToString(i), NatToString(j);
    if Contains(pj, pi) {
      var k := IndexOf(pj, pi);
      assert pj[k..k + |pi|] == pi;
      assert pj[k + 2] == pi[2] == 'I';
      forall m | 8 <= m < 8 + |dj| ensures pj[m] != 'I' && pj[m] != '_' {
        assert pj[m] == dj[m - 8];
      }
      assert k == 0;
      assert pj[8 + |di|] == pi[8 + |di|] == '_';
      assert pj == pi;
      assert di == pi[8..8 + |di|] == pj[8..8 + |dj|] == dj;
      NatToStringInjective(i, j);
    }
  }

  /** One iteration of the substitution loop: if the current HTML mentions
      image `i`'s placeholder, every occurrence becomes the image's data. */
  function Step(html: string, images: seq<string>, i: nat): string
    requires i < |images|
  {
    if Contains(html, Placeholder(i)) then ReplaceAll(html, Placeholder(i), images[i]) else html
  }

  /** The HTML after the first `k` images have been processed. A reply that
      mentions none of their placeholders is left as it is. */
  function Stage(html: string, images: seq<string>, k: nat): (r: string)
    requires k <= |images|
    ensures (forall i :: 0 <= i < k ==> !Contains(html, Placeholder(i))) ==> r == html
  {
    if k == 0 then html else Step(Stage(html, images, k - 1), images, k - 1)
  }

  /** Image `i` is substituted: its placeholder is in the HTML when its turn comes. */
  predicate Handled(html: string, images: seq<string>, i: nat)
    requires i < |images|
  {
    Contains(Stage(html, images, i), Placeholder(i))
  }

  /** The images among the first `k` that were not substituted, in order;
      at most `k` of them. */
  function Unhandled(html: string, images: seq<string>, k: nat): (r: seq<string>)
    requires k <= |images|
    ensures |r| <= k
  {
    if k == 0 then []
    else Unhandled(html, images, k - 1) + (if Handled(html, images, k - 1) then [] else [images[k - 1]])
  }

  /** The indices of the images among the first `k` that were not substituted. */
  function UnhandledIndices(html: string, images: seq<string>, k: nat): seq<nat>
    requires k <= |images|
  {
    if k == 0 then []
    else UnhandledIndices(html, images, k - 1) + (if Handled(html, images, k - 1) then [] else [k - 1])
  }

  /** The unhandled list is the images at the unhandled indices. */
  lemma {:induction false} UnhandledAtIndices(html: string, images: seq<string>, k: nat)
    requires k <= |images|
    ensures |Unhandled(html, images, k)| == |UnhandledIndices(html, images, k)|
    ensures forall m :: 0 <= m < |UnhandledIndices(html, images, k)| ==>
      UnhandledIndices(html, images, k)[m] < k
      && Unhandled(html, images, k)[m] == images[UnhandledIndices(html, images, k)[m]]
  {
    if k > 0 {
      UnhandledAtIndices(html, images, k - 1);
    }
  }

  /** The unhandled indices are strictly increasing, so the unhandled list
      keeps the images' original order. */
  lemma {:induction false} UnhandledIndicesIncreasing(html: string, images: seq<string>, k: nat)
    requires k <= |images|
    ensures forall m, n :: 0 <= m < n < |UnhandledIndices(html, images, k)| ==>
      UnhandledIndices(html, images, k)[m] < UnhandledIndices(html, images, k)[n]
  {
    if k > 0 {
      var prev := UnhandledIndices(html, images, k - 1);
      UnhandledIndicesIncreasing(html, images, k - 1);
      UnhandledIndicesBelow(html, images, k - 1);
      forall m | 0 <= m < |prev| ensures prev[m] < k - 1 {
        assert prev[m] in prev;
      }
    }
  }

  /** Every image is in exactly one place: an index is listed as unhandled
      exactly when its image was not substituted. */
  lemma {:induction false} UnhandledIndicesExact(html: string, images: seq<string>, k: nat)
    requires k <= |images|
    ensures forall i :: 0 <= i < k ==> (i in UnhandledIndices(html, images, k) <==> !Handled(html, images, i))
  {
    if k > 0 {
      var prev := UnhandledIndices(html, images, k - 1);
      UnhandledIndicesExact(html, images, k - 1);
      UnhandledIndicesBelow(html, images, k - 1);
      assert k - 1 !in prev;
    }
  }

  /** Only indices of processed images are listed. */
  lemma {:induction false} UnhandledIndicesBelow(html: string, images: seq<string>, k: nat)
    requires k <= |images|
    ensures forall x :: x in UnhandledIndices(html, images, k) ==> x < k
  {
    if k > 0 {
      UnhandledIndicesBelow(html, images, k - 1);
    }
  }

  /** A substituted image's placeholder was there, and what the step produced
      is that HTML with every occurrence of the placeholder (each piece
      between occurrences keeps no placeholder) replaced by the image. */
  lemma SubstitutionReplacesEveryOccurrence(html: string, images: seq<string>, i: nat)
    requires i < |images| && Handled(html, images, i)
    ensures var before := Stage(html, images, i);
      var pieces := Split(before, Placeholder(i));
      && |pieces| >= 2
      && Join(pieces, Placeholder(i)) == before
      && Join(pieces, images[i]) == Stage(html, images, i + 1)
      && forall m :: 0 <= m < |pieces| ==> !Contains(pieces[m], Placeholder(i))
  {
    JoinSplit(Stage(html, images, i), Placeholder(i));
    SplitPiecesFree(Stage(html, images, i), Placeholder(i));
  }

  /** A reply that mentions none of the placeholders sends every image to
      the fallback strip. */
  lemma {:induction false} NoPlaceholdersAllUnhandled(html: string, images: seq<string>, k: nat)
    requires k <= |images|
    requires forall i :: 0 <= i < k ==> !Contains(html, Placeholder(i))
    ensures Unhandled(html, images, k) == images[..k]
  {
    if k > 0 {
      NoPlaceholdersAllUnhandled(html, images, k - 1);
      assert images[..k] == images[..k - 1] + [images[k - 1]];
    }
  }

  /** The `forEach` over the images, reassigning `html` and pushing onto
      `unhandledImages`. */
  method SubstitutePlaceholders(clean: string, images: seq<string>)
    returns (html: string, unhandledImages: seq<string>)
    ensures html == Stage(clean, images, |images|)
    ensures unhandledImages == Unhandled(clean, images, |images|)
  {
    html := clean;
    unhandledImages := [];
    var index := 0;
    while index < |images|
      invariant 0 <= index <= |images|
      invariant html == Stage(clean, images, index)
      invariant unhandledImages == Unhandled(clean, images, index)
    {
      var placeholder := Placeholder(index);
      if Contains(html, placeholder) {
        html := Join(Split(html, placeholder), images[index]);
      } else {
        unhandledImages := unhandledImages + [images[index]];
      }
      index := index + 1;
    }
  }

  // --------------------------------------------------------------- fallback

  const TileOpen: string := "<div style=\"flex: 1; min-width: 80px; height: 80px; background-image: url('"
  const TileClose: string := "'); background-size: cover; background-position: center; border-radius: 8px;\"></div>"

  function FallbackTile(image: string): string {
    TileOpen + image + TileClose
  }

  /** `unhandledImages.map(tile)`. */
  function Tiles(images: seq<string>): (tiles: seq<string>)
    ensures |tiles| == |images|
  {
    if |images| == 0 then [] else [FallbackTile(images[0])] + Tiles(images[1..])
  }

  /** `unhandledImages.map(tile).join('')`. */
  function FallbackGrid(images: seq<string>): string {
    Join(Tiles(images), "")
  }

  const FallbackOpen: string :=
    "\n        <div style=\"position: absolute; bottom: 0; left: 0; right: 0; padding: 10px; background: rgba(255,255,255,0.9); border-top: 1px solid #eee; z-index: 50;\">\n"
    + "          <p style=\"font-size: 10px; color: #999; margin-bottom: 5px;\">Extra Photos:</p>\n"
    + "          <div style=\"display: flex; gap: 5px; overflow-x: auto;\">"

  const FallbackClose: string := "</div>\n        </div>\n      "

  /** The HTML with the fallback strip appended when some image is
      unhandled: the HTML itself is kept as the prefix, and nothing is added
      when every image was substituted. */
  function AppendFallback(html: string, unhandled: seq<string>): (r: string)
    ensures |unhandled| == 0 ==> r == html
    ensures |unhandled| > 0 ==> StartsWith(r, html + FallbackOpen) && EndsWith(r, FallbackClose)
  {
    if |unhandled| > 0 then
      var r := html + FallbackOpen + FallbackGrid(unhandled) + FallbackClose;
      assert r[..|html + FallbackOpen|] == html + FallbackOpen;
      assert r[|r| - |FallbackClose|..] == FallbackClose;
      r
    else html
  }

  /** The tiles of a concatenation are the concatenation of the tiles. */
  lemma {:induction false} TilesAppend(a: seq<string>, b: seq<string>)
    ensures Tiles(a + b) == Tiles(a) + Tiles(b)
    decreases |a|
  {
    if |a| > 0 {
      TilesAppend(a[1..], b);
      assert (a + b)[1..] == a[1..] + b;
      assert (a + b)[0] == a[0];
    } else {
      assert a + b == b;
    }
  }

  /** The grid of a concatenation is the concatenation of the grids. */
  lemma FallbackGridAppend(a: seq<string>, b: seq<string>)
    ensures FallbackGrid(a + b) == FallbackGrid(a) + FallbackGrid(b)
  {
    TilesAppend(a, b);
    JoinEmptyAppend(Tiles(a), Tiles(b));
  }

  /** The strip holds one tile per image, in order: tile `i` stands between
      the tiles of the images before it and those after it. */
  lemma FallbackTileAt(images: seq<string>, i: nat)
    requires i < |images|
    ensures FallbackGrid(images)
      == FallbackGrid(images[..i]) + FallbackTile(images[i]) + FallbackGrid(images[i + 1..])
  {
    assert images == images[..i] + [images[i]] + images[i + 1..];
    FallbackGridAppend(images[..i] + [images[i]], images[i + 1..]);
    FallbackGridAppend(images[..i], [images[i]]);
  }

  // ------------------------------------------------------------ the whole

  /** `response.text || ''`. */
  function ReplyHtml(text: Option<string>): string {
    if text.Some? then text.value else ""
  }

  /** What `generateSmartCanvas` resolves to for a reply that came back. With
      no images it is the cleaned reply; when the cleaned reply uses none of
      the placeholders, it is kept as it is and every image goes to the strip. */
  function Canvas(replyText: Option<string>, images: seq<string>): (r: string)
    ensures |images| == 0 ==> r == StripFences(ReplyHtml(replyText))
    ensures (forall i :: 0 <= i < |images| ==> !Contains(StripFences(ReplyHtml(replyText)), Placeholder(i))) ==>
      r == AppendFallback(StripFences(ReplyHtml(replyText)), images)
  {
    var clean := StripFences(ReplyHtml(replyText));
    if forall i :: 0 <= i < |images| ==> !Contains(clean, Placeholder(i)) then
      NoPlaceholdersAllUnhandled(clean, images, |images|);
      assert images[..|images|] == images;
      AppendFallback(Stage(clean, images, |images|), Unhandled(clean, images, |images|))
    else
      AppendFallback(Stage(clean, images, |images|), Unhandled(clean, images, |images|))
  }

  /** When some image is unhandled the card is the substituted HTML followed
      by the strip, whose tile `i` shows the `i`-th unhandled image. */
  lemma AppendFallbackShape(html: string, unhandled: seq<string>, i: nat)
    ensures i < |unhandled| ==>
      AppendFallback(html, unhandled) == html + FallbackOpen + FallbackGrid(unhandled[..i])
        + FallbackTile(unhandled[i]) + FallbackGrid(unhandled[i + 1..]) + FallbackClose
  {
    if i < |unhandled| {
      var grid := FallbackGrid(unhandled);
      var before, tile, after := FallbackGrid(unhandled[..i]), FallbackTile(unhandled[i]), FallbackGrid(unhandled[i + 1..]);
      assert AppendFallback(html, unhandled) == html + FallbackOpen + grid + FallbackClose;
      FallbackTileAt(unhandled, i);
      SpliceMiddle(html + FallbackOpen, before, tile, after, FallbackClose);
    }
  }

  /** Concatenation regrouped around a middle part made of three pieces. */
  lemma SpliceMiddle(a: string, b: string, c: string, d: string, e: string)
    ensures a + (b + c + d) + e == a + b + c + d + e
  {
  }

  /** The request sent to the model: the prompt, then the images. */
  method BuildRequest(text: string, images: seq<string>, userPrompt: Option<string>)
    returns (parts: seq<Part>)
    ensures parts == [TextPart(PromptText(text, |images|, userPrompt))] + ImageParts(images)
  {
    var promptText := BuildPromptText(text, |images|, userPrompt);
    parts := BuildParts(promptText, images);
  }

  /** `generateSmartCanvas(text, images, userPrompt)` given the model's reply
      to the request: any failure is the single generation error; otherwise
      the cleaned, substituted HTML with its fallback strip. */
  method GenerateSmartCanvas(text: string, images: seq<string>, userPrompt: Option<string>, reply: ModelReply)
    returns (result: Result<string, JsError>)
    ensures reply.Threw? ==> result == Failure(JsError("Error", GenerationFailed))
    ensures reply.Returned? ==> result == Success(Canvas(reply.text, images))
  {
    var parts := BuildRequest(text, images, userPrompt);
    if reply.Threw? {
      return Failure(JsError("Error", GenerationFailed));
    }
    var html := ReplyHtml(reply.text);
    html := StripFences(html);
    var unhandledImages;
    ghost var clean := html;
    html, unhandledImages := SubstitutePlaceholders(html, images);
    ghost var substituted := html;
    if |unhandledImages| > 0 {
      var fallbackGrid := FallbackGrid(unhandledImages);
      html := html + FallbackOpen + fallbackGrid + FallbackClose;
    }
    assert html == AppendFallback(substituted, unhandledImages);
    assert clean == StripFences(ReplyHtml(reply.text));
    return Success(html);
  }
}
