/** The text builders of src/penai/llm/prompting.py and the split of a code
    block into its declared language and its code. The builders mutate and
    return themselves in Python; here each step returns the updated builder. */
module Prompting {
  import opened Wrappers
  import Chars

  // ---------------------------------------------------------------------------
  // PromptBuilder

  datatype PromptBuilder = PromptBuilder(content: string)

  /** `"\n" * n`: `n` line breaks, none when `n` is zero or negative. */
  function Breaks(n: int): (r: string)
    ensures |r| == (if n > 0 then n else 0)
    ensures forall i :: 0 <= i < |r| ==> r[i] == '\n'
    decreases if n > 0 then n else 0
  {
    if n <= 0 then "" else Breaks(n - 1) + "\n"
  }

  /** `PromptBuilder(initial_prompt)`. */
  function NewPrompt(initialPrompt: string): (b: PromptBuilder)
    ensures Build(b) == initialPrompt
  {
    PromptBuilder(initialPrompt)
  }

  /** `with_text(text, breaks)`: the line breaks, then the text, at the end. */
  function WithText(b: PromptBuilder, text: string, breaks: int): (r: PromptBuilder)
    ensures |Build(r)| == |Build(b)| + (if breaks > 0 then breaks else 0) + |text|
    ensures Build(r)[..|Build(b)|] == Build(b)
    ensures Build(r)[|Build(r)| - |text|..] == text
    ensures forall i :: |Build(b)| <= i < |Build(r)| - |text| ==> Build(r)[i] == '\n'
  {
    PromptBuilder(b.content + Breaks(breaks) + text)
  }

  /** `with_conditional_text(condition, text)`: the text at the end when the
      condition holds, no change otherwise. */
  function WithConditionalText(b: PromptBuilder, condition: bool, text: string): (r: PromptBuilder)
    ensures condition ==> r == WithText(b, text, 0)
    ensures !condition ==> r == b
  {
    if condition then PromptBuilder(b.content + text) else b
  }

  /** `build()`. */
  function Build(b: PromptBuilder): string {
    b.content
  }

  /** One call on the builder. */
  datatype PromptStep = AddText(text: string, breaks: int) | AddConditional(condition: bool, text: string)

  /** The builder after one call. */
  function Apply(b: PromptBuilder, step: PromptStep): PromptBuilder {
    match step
    case AddText(text, breaks) => WithText(b, text, breaks)
    case AddConditional(condition, text) => WithConditionalText(b, condition, text)
  }

  /** The builder after a chain of calls. */
  function ApplySteps(b: PromptBuilder, steps: seq<PromptStep>): PromptBuilder
    decreases |steps|
  {
    if |steps| == 0 then b else ApplySteps(Apply(b, steps[0]), steps[1..])
  }

  /** What one call contributes to the prompt. */
  function Piece(step: PromptStep): string {
    match step
    case AddText(text, breaks) => Breaks(breaks) + text
    case AddConditional(condition, text) => if condition then text else ""
  }

  function Pieces(steps: seq<PromptStep>): string {
    if |steps| == 0 then "" else Piece(steps[0]) + Pieces(steps[1..])
  }

  /** A built prompt is the initial prompt followed by every contribution, in
      the order of the calls. */
  lemma {:induction false} BuildIsConcatenation(b: PromptBuilder, steps: seq<PromptStep>)
    ensures Build(ApplySteps(b, steps)) == Build(b) + Pieces(steps)
    decreases |steps|
  {
    if |steps| > 0 {
      var next := Apply(b, steps[0]);
      var x, p, q := Build(b), Piece(steps[0]), Pieces(steps[1..]);
      assert ApplySteps(b, steps) == ApplySteps(next, steps[1..]);
      assert Pieces(steps) == p + q;
      ApplyAppendsPiece(b, steps[0]);
      BuildIsConcatenation(next, steps[1..]);
      assert (x + p) + q == x + (p + q);
    }
  }

  lemma ApplyAppendsPiece(b: PromptBuilder, step: PromptStep)
    ensures Build(Apply(b, step)) == Build(b) + Piece(step)
  {
    match step
    case AddText(text, breaks) =>
      assert Build(b) + Breaks(breaks) + text == Build(b) + (Breaks(breaks) + text);
    case AddConditional(condition, text) =>
      if !condition {
        assert Build(b) + "" == Build(b);
      }
  }

  // ---------------------------------------------------------------------------
  // MessageBuilder

  /** One entry of a message's content list: `{"type": "text", "text": …}`, or
      an image given by its data URL. */
  datatype ContentItem = TextItem(text: string) | ImageItem(url: string)

  datatype MessageBuilder = MessageBuilder(content: seq<ContentItem>)

  /** `MessageBuilder(text_message)`: no items, or one text item. */
  function NewMessage(textMessage: Option<string>): (b: MessageBuilder)
    ensures textMessage.None? ==> |b.content| == 0
    ensures textMessage.Some? ==> |b.content| == 1 && b.content[0] == TextItem(textMessage.value)
  {
    if textMessage.Some? then MessageBuilder([TextItem(textMessage.value)]) else MessageBuilder([])
  }

  /** `with_text_message`: one text item more, at the end; the earlier items
      are left as they were. */
  function WithTextMessage(b: MessageBuilder, textMessage: string): (r: MessageBuilder)
    ensures |r.content| == |b.content| + 1
    ensures r.content[..|b.content|] == b.content
    ensures r.content[|b.content|] == TextItem(textMessage)
  {
    MessageBuilder(b.content + [TextItem(textMessage)])
  }

  function AddTexts(b: MessageBuilder, texts: seq<string>): MessageBuilder
    decreases |texts|
  {
    if |texts| == 0 then b else AddTexts(WithTextMessage(b, texts[0]), texts[1..])
  }

  /** Adding texts one after the other yields one text item per text, in
      order, after the items already there. */
  lemma {:induction false} AddTextsAppends(b: MessageBuilder, texts: seq<string>)
    ensures |AddTexts(b, texts).content| == |b.content| + |texts|
    ensures AddTexts(b, texts).content[..|b.content|] == b.content
    ensures forall i :: 0 <= i < |texts| ==> AddTexts(b, texts).content[|b.content| + i] == TextItem(texts[i])
    decreases |texts|
  {
    if |texts| > 0 {
      var next := WithTextMessage(b, texts[0]);
      AddTextsAppends(next, texts[1..]);
      var r := AddTexts(b, texts).content;
      assert r[..|b.content|] == r[..|next.content|][..|b.content|];
      forall i | 1 <= i < |texts|
        ensures r[|b.content| + i] == TextItem(texts[i])
      {
        assert texts[i] == texts[1..][i - 1];
      }
    }
  }

  // ---------------------------------------------------------------------------
  // CodeSnippet

  /** The longest prefix of `s` made of `\w` characters. */
  function LeadingWord(s: string): (w: string)
    ensures |w| <= |s| && w == s[..|w|]
    ensures forall i :: 0 <= i < |w| ==> Chars.IsWordChar(w[i])
    ensures |w| < |s| ==> !Chars.IsWordChar(s[|w|])
  {
    if |s| > 0 && Chars.IsWordChar(s[0]) then
      var rest := LeadingWord(s[1..]);
      [s[0]] + rest
    else ""
  }

  /** A code block split into its declared language and its code. */
  datatype Snippet = Snippet(language: Option<string>, code: string)

  /** `CodeSnippet.__init__` on the block's text: `re.match(r"(\w+)\s*", code)`.
      A leading word is the language, and the code is what follows it and the
      whitespace after it; without a leading word there is no language and the
      code is the whole text. */
  function SplitLanguage(text: string): (r: Snippet)
    ensures (|text| > 0 && Chars.IsWordChar(text[0])) <==> r.language.Some?
    ensures r.language.None? ==> r.code == text
    ensures r.language.Some? ==>
      && |r.language.value| > 0
      && (forall i :: 0 <= i < |r.language.value| ==> Chars.IsWordChar(r.language.value[i]))
      && |r.language.value| + |r.code| <= |text|
      && text[..|r.language.value|] == r.language.value
      && text[|text| - |r.code|..] == r.code
      && (forall i :: |r.language.value| <= i < |text| - |r.code| ==> Chars.IsSpace(text[i]))
      && (|r.code| > 0 ==> !Chars.IsSpace(r.code[0]))
  {
    var word := LeadingWord(text);
    if |word| == 0 then Snippet(None, text)
    else Snippet(Some(word), text[Chars.SkipSpaces(text, |word|)..])
  }

  /** The split undone: language, whitespace and code put back together give
      the text, and any word followed by whitespace and code that starts with
      neither is split back into exactly that word and code. */
  lemma SplitLanguageRoundTrip(word: string, space: string, code: string)
    requires |word| > 0 && forall i :: 0 <= i < |word| ==> Chars.IsWordChar(word[i])
    requires Chars.AllSpace(space)
    requires |code| > 0 ==> !Chars.IsSpace(code[0])
    requires |space| == 0 && |code| > 0 ==> !Chars.IsWordChar(code[0])
    ensures SplitLanguage(word + space + code) == Snippet(Some(word), code)
  {
    var text := word + space + code;
    var w := LeadingWord(text);
    WordPrefix(text, word);
    assert w == word;
    var n := |word| + |space|;
    assert text[n..] == code;
    forall i | |word| <= i < n
      ensures Chars.IsSpace(text[i])
    {
      assert text[i] == space[i - |word|];
    }
    assert n < |text| ==> text[n] == code[0];
    Chars.SkipSpacesUnique(text, |word|, n);
  }

  /** Two maximal word prefixes of the same text are the same. */
  lemma WordPrefix(text: string, word: string)
    requires |word| <= |text| && text[..|word|] == word
    requires forall i :: 0 <= i < |word| ==> Chars.IsWordChar(word[i])
    requires |word| < |text| ==> !Chars.IsWordChar(text[|word|])
    ensures LeadingWord(text) == word
  {
  }
}
